/** Loading the segments of an ELF image into the pages of a new address space, as the program headers say
    (System V gABI, chapter 5, section "Program Header"). */
module ElfLoader {
  import opened Options
  import opened FrameAllocator
  import opened PageTree
  import opened PageTables
  import opened Areas
  import opened AreaForms
  import opened FrameOwners
  import opened AddressSpaceSteps
  import opened AddressSpace
  import opened PhysicalMemory

  const USER_STACK_PAGES: nat := 16
  const USER_STACK_TOP: nat := 0x7FFF_FFFF_E000
  const USER_STACK_BOTTOM: nat := USER_STACK_TOP - USER_STACK_PAGES * FrameAllocator.PAGE_SIZE

  datatype Phdr = Phdr(load: bool, read: bool, write: bool, exec: bool, offset: nat, vaddr: nat, filesz: nat, memsz: nat)

  /** The pages that an address space shows, with their contents. */
  type Image = map<nat, seq<Byte>>

  ghost predicate WholePages(pages: Image) {
    forall p :: p in pages ==> Aligned(p) && |pages[p]| == FrameAllocator.PAGE_SIZE
  }

  /** What a load from an address gives. */
  function ByteAt(pages: Image, v: nat): Option<Byte> {
    var p := AlignDown(v);
    if p in pages && v - p < |pages[p]| then Some(pages[p][v - p]) else None
  }

  /** Headers that load_segments does not skip. */
  predicate Loads(ph: Phdr) {
    ph.load && ph.memsz > 0
  }

  function FirstPage(ph: Phdr): nat {
    AlignDown(ph.vaddr)
  }

  function EndPage(ph: Phdr): nat {
    AlignUp(ph.vaddr + ph.memsz)
  }

  /** The address lies in the pages of the segment. */
  predicate InSegment(ph: Phdr, v: nat) {
    Loads(ph) && FirstPage(ph) <= v < EndPage(ph)
  }

  /** The file bytes of the header go to this address, be it inside its segment or beyond. */
  predicate InCopy(ph: Phdr, v: nat) {
    Loads(ph) && ph.vaddr <= v < ph.vaddr + ph.filesz
  }

  /** What the header wants at an address of its segment. */
  function Wanted(data: seq<Byte>, ph: Phdr, v: nat): Byte
    requires Loads(ph) && ph.offset + ph.filesz <= |data|
  {
    if InCopy(ph, v) then data[ph.offset + (v - ph.vaddr)] else 0
  }

  /** The segment is in place: the bytes of the file, and zeros in the rest of its pages. */
  ghost predicate InPlace(pages: Image, data: seq<Byte>, ph: Phdr) {
    && ph.offset + ph.filesz <= |data|
    && forall v: nat :: InSegment(ph, v) ==> ByteAt(pages, v) == Some(Wanted(data, ph, v))
  }

  lemma PageArithmetic(v: nat, p: nat)
    requires Aligned(p)
    ensures AlignDown(v) == p <==> p <= v < p + FrameAllocator.PAGE_SIZE
  {
  }

  // ---------------------------------------------------------------- mapping and copying

  /** The pages of [from, to), where there is no page yet, added with zeros. */
  ghost predicate ZeroMapped(pages: Image, pages': Image, from: nat, to: nat) {
    && WholePages(pages')
    && (forall p: nat :: from <= p < to ==> p !in pages)
    && (forall p: nat :: p in pages' <==> p in pages || (Aligned(p) && from <= p < to))
    && (forall v: nat :: ByteAt(pages', v) == if from <= v < to then Some(0) else ByteAt(pages, v))
  }

  /** The bytes of [from, to) are zero, the others as before, over the same pages. */
  ghost predicate Zeroed(pages: Image, pages': Image, from: nat, to: nat) {
    && WholePages(pages') && pages'.Keys == pages.Keys
    && forall v: nat :: ByteAt(pages', v) == if from <= v < to then Some(0) else ByteAt(pages, v)
  }

  lemma ZeroedStart(pages: Image, from: nat)
    requires WholePages(pages)
    ensures Zeroed(pages, pages, from, from)
  {
  }

  lemma ZeroedStep(pages: Image, mid: Image, from: nat, v: nat)
    requires Zeroed(pages, mid, from, v) && Aligned(v) && from <= v && v in pages
    ensures Zeroed(pages, mid[v := ZeroPage()], from, v + FrameAllocator.PAGE_SIZE)
  {
    var after := mid[v := ZeroPage()];
    assert v in mid.Keys && after.Keys == mid.Keys;
    forall u: nat
      ensures ByteAt(after, u) == if from <= u < v + FrameAllocator.PAGE_SIZE then Some(0) else ByteAt(pages, u)
    {
      PageArithmetic(u, v);
      assert ByteAt(mid, u) == if from <= u < v then Some(0) else ByteAt(pages, u);
    }
  }

  /** New pages of any contents that are then zeroed. */
  lemma MappedThenZeroed(pages: Image, mid: Image, after: Image, from: nat, to: nat)
    requires Extended(pages, mid, from, to) && Zeroed(mid, after, from, to)
    ensures ZeroMapped(pages, after, from, to)
  {
    hide ByteAt;
    forall p: nat
      ensures p in after <==> p in pages || (Aligned(p) && from <= p < to)
    {
      assert p in after.Keys <==> p in mid.Keys;
    }
  }

  /** Pages were added over [from, to), where there was none. */
  ghost predicate Extended(pages: Image, pages': Image, from: nat, to: nat) {
    && (forall p: nat :: from <= p < to ==> p !in pages)
    && (forall p: nat :: p in pages' <==> p in pages || (Aligned(p) && from <= p < to))
    && (forall v: nat :: v < from || to <= v ==> ByteAt(pages', v) == ByteAt(pages, v))
  }

  /** The first n bytes of [at, ...) come from the file, the others are as before. */
  ghost predicate Copied(pages: Image, pages': Image, data: seq<Byte>, offset: nat, at: nat, n: nat) {
    && offset + n <= |data|
    && WholePages(pages') && pages'.Keys == pages.Keys
    && forall v: nat :: ByteAt(pages', v) == if at <= v < at + n then Some(data[offset + (v - at)]) else ByteAt(pages, v)
  }

  lemma CopiedStep(pages: Image, mid: Image, data: seq<Byte>, offset: nat, at: nat, n: nat, chunk: nat)
    requires Copied(pages, mid, data, offset, at, n) && offset + n + chunk <= |data|
    requires var p := AlignDown(at + n); p in pages && (at + n) - p + chunk <= FrameAllocator.PAGE_SIZE
    ensures var p := AlignDown(at + n); var off := at + n - p;
            p in mid && |mid[p]| == FrameAllocator.PAGE_SIZE
            && Copied(pages,
                      mid[p := mid[p][..off] + data[offset + n..offset + n + chunk] + mid[p][off + chunk..]],
                      data, offset, at, n + chunk)
  {
    var p := AlignDown(at + n);
    assert p in mid.Keys;
    var off := at + n - p;
    var page := mid[p][..off] + data[offset + n..offset + n + chunk] + mid[p][off + chunk..];
    var after := mid[p := page];
    assert after.Keys == mid.Keys;
    forall v: nat
      ensures ByteAt(after, v) == if at <= v < at + n + chunk then Some(data[offset + (v - at)]) else ByteAt(pages, v)
    {
      PageArithmetic(v, p);
      assert ByteAt(mid, v) == if at <= v < at + n then Some(data[offset + (v - at)]) else ByteAt(pages, v);
    }
  }

  lemma CopiedStart(pages: Image, data: seq<Byte>, offset: nat, at: nat)
    requires WholePages(pages) && offset <= |data|
    ensures Copied(pages, pages, data, offset, at, 0)
  {
  }

  // ---------------------------------------------------------------- what a space shows

  function Shown(flat: map<nat, Pte>, data: map<nat, seq<Byte>>): Image {
    map v | v in flat && flat[v].addr in data :: data[flat[v].addr]
  }

  /** Every page has a frame of its own. */
  ghost predicate Distinct(flat: map<nat, Pte>, data: map<nat, seq<Byte>>) {
    && (forall v :: v in flat ==> IsPage(v) && flat[v].addr in data && flat[v].addr != 0)
    && (forall u, v :: u in flat && v in flat && u != v ==> flat[u].addr != flat[v].addr)
  }

  ghost predicate AllAnonymous(areas: seq<Area>) {
    forall v: nat :: AttrOf(areas, v).Some? ==> HasKind(areas, v, Anon)
  }

  /** Every page of an area is translated. */
  ghost predicate FullyMapped(areas: seq<Area>, flat: map<nat, Pte>) {
    forall v: nat :: IsPage(v) && AttrOf(areas, v).Some? ==> v in flat
  }

  lemma OwnFrames(w: View, data: map<nat, seq<Byte>>)
    requires Owners(w) && AllAnonymous(w.areas) && w.managed <= data.Keys && 0 !in w.managed
    requires forall v :: v in w.flat ==> IsPage(v)
    ensures Distinct(w.flat, data)
  {
    hide AttrOf;
    forall v | v in w.flat
      ensures HasKind(w.areas, v, Anon) && OwnsPage(w, v)
    {
    }
  }

  lemma ShownWhole(flat: map<nat, Pte>, data: map<nat, seq<Byte>>)
    requires Distinct(flat, data) && forall f :: f in data ==> |data[f]| == FrameAllocator.PAGE_SIZE
    ensures WholePages(Shown(flat, data)) && Shown(flat, data).Keys == flat.Keys
  {
  }

  /** What the image shows is what a load through the translations gives. */
  lemma ShownIsRead(flat: map<nat, Pte>, data: map<nat, seq<Byte>>, v: nat)
    ensures ByteAt(Shown(flat, data), v) == ReadByte(data, flat, v)
  {
  }

  /** Writing to the frame of a page changes that page and no other. */
  lemma ShownWrite(flat: map<nat, Pte>, data: map<nat, seq<Byte>>, v: nat, page: seq<Byte>)
    requires Distinct(flat, data) && v in flat
    ensures Shown(flat, data[flat[v].addr := page]) == Shown(flat, data)[v := page]
    ensures Distinct(flat, data[flat[v].addr := page])
  {
  }

  /** The copy loop of load_segments: page by page, failing at an address that is not mapped. */
  method CopySegment(space: VmSpace, ram: Ram, data: seq<Byte>, ph: Phdr) returns (ok: bool)
    requires space.Shape() && ram.Covers(space.frames.managed) && Distinct(space.pages.flat, ram.data)
    requires ph.offset + ph.filesz <= |data| && ph.vaddr + ph.filesz <= USER_END
    modifies ram
    ensures ram.Covers(space.frames.managed) && Distinct(space.pages.flat, ram.data)
    ensures ok ==> Copied(old(Shown(space.pages.flat, ram.data)), Shown(space.pages.flat, ram.data),
                          data, ph.offset, ph.vaddr, ph.filesz)
    ensures PagesThere(space.pages.flat, ph) ==> ok
  {
    hide ByteAt;
    hide Sound;
    hide Frames.Valid;
    hide Listed;
    hide TotalSize;
    hide Shown;
    hide Distinct;
    ghost var flat, pages := space.pages.flat, Shown(space.pages.flat, ram.data);
    ShownWhole(flat, ram.data);
    var pageOff: nat, srcOff: nat := ph.vaddr - AlignDown(ph.vaddr), ph.offset;
    var remaining: nat, vcur: nat := ph.filesz, AlignDown(ph.vaddr);
    CopiedStart(pages, data, ph.offset, ph.vaddr);
    while remaining > 0
      invariant remaining <= ph.filesz && srcOff == ph.offset + (ph.filesz - remaining)
      invariant Aligned(vcur) && FirstPage(ph) <= vcur
      invariant remaining > 0 ==>
                  pageOff < FrameAllocator.PAGE_SIZE && vcur + pageOff == ph.vaddr + (ph.filesz - remaining)
      invariant ram.Covers(space.frames.managed) && Distinct(flat, ram.data)
      invariant Copied(pages, Shown(flat, ram.data), data, ph.offset, ph.vaddr, ph.filesz - remaining)
    {
      AlignedSelf(vcur);
      var phys := space.pages.VirtToPhys(vcur);
      DistinctAt(flat, ram.data, vcur);
      if phys == 0 {
        return false;
      }
      var chunk := FrameAllocator.PAGE_SIZE - pageOff;
      if chunk > remaining {
        chunk := remaining;
      }
      PageArithmetic(ph.vaddr + (ph.filesz - remaining), vcur);
      CopyStep(flat, ram.data, pages, data, ph.offset, ph.vaddr, ph.filesz - remaining, chunk);
      var page := ram.data[phys][..pageOff] + data[srcOff..srcOff + chunk] + ram.data[phys][pageOff + chunk..];
      ram.data := ram.data[phys := page];
      srcOff := srcOff + chunk;
      remaining := remaining - chunk;
      vcur := vcur + FrameAllocator.PAGE_SIZE;
      pageOff := 0;
    }
    ok := true;
  }

  lemma DistinctAt(flat: map<nat, Pte>, data: map<nat, seq<Byte>>, v: nat)
    requires Distinct(flat, data)
    ensures v in flat ==> flat[v].addr in data && flat[v].addr != 0
    ensures v in Shown(flat, data) <==> v in flat
  {
  }

  /** One chunk of the copy, through the frame of its page. */
  lemma CopyStep(flat: map<nat, Pte>, ram: map<nat, seq<Byte>>, pages: Image, data: seq<Byte>,
                 offset: nat, at: nat, n: nat, chunk: nat)
    requires Distinct(flat, ram) && Copied(pages, Shown(flat, ram), data, offset, at, n) && offset + n + chunk <= |data|
    requires var p := AlignDown(at + n); p in flat && (at + n) - p + chunk <= FrameAllocator.PAGE_SIZE
    ensures var p := AlignDown(at + n); var off := at + n - p; var f := flat[p].addr;
            && f in ram && |ram[f]| == FrameAllocator.PAGE_SIZE
            && var page := ram[f][..off] + data[offset + n..offset + n + chunk] + ram[f][off + chunk..];
            && |page| == FrameAllocator.PAGE_SIZE
            && Copied(pages, Shown(flat, ram[f := page]), data, offset, at, n + chunk) && Distinct(flat, ram[f := page])
  {
    hide ByteAt;
    var p := AlignDown(at + n);
    var off, f := at + n - p, flat[p].addr;
    var mid := Shown(flat, ram);
    assert p in mid.Keys && p in pages.Keys && mid[p] == ram[f];
    CopiedStep(pages, mid, data, offset, at, n, chunk);
    ShownWrite(flat, ram, p, ram[f][..off] + data[offset + n..offset + n + chunk] + ram[f][off + chunk..]);
  }

  /** All pages that the copy touches are translated. */
  ghost predicate PagesThere(flat: map<nat, Pte>, ph: Phdr) {
    forall p: nat :: Aligned(p) && FirstPage(ph) <= p < ph.vaddr + ph.filesz ==> p in flat
  }

  /** The protection that a program header asks for. */
  function SegmentFlags(ph: Phdr): VmFlags {
    VmFlags(ph.read, ph.write, ph.exec, true, false)
  }

  /** An area for the program with the protection of a header. */
  predicate AsHeader(flags: VmFlags, ph: Phdr) {
    && flags.user && !flags.nocache
    && (flags.read <==> ph.read)
    && (flags.write <==> ph.write)
    && (flags.exec <==> ph.exec)
  }

  /** A translation that the program can use, writable exactly if the header says so. None forbids execution. */
  predicate OpenAs(e: Flags, ph: Phdr) {
    e.present && e.user && (e.writable <==> ph.write) && !e.cow && !e.nx
  }

  /** A space that is being loaded: anonymous areas, every page with a frame of its own. */
  ghost predicate Loading(space: VmSpace, ram: Ram)
    reads space, space.pages, space.frames, ram
  {
    && space.Valid() && AllAnonymous(space.areas) && FullyMapped(space.areas, space.pages.flat)
    && ram.Covers(space.frames.managed) && Distinct(space.pages.flat, ram.data)
  }

  /** The segments have the protection of their headers. */
  ghost predicate Protected(areas: seq<Area>, phs: seq<Phdr>) {
    forall i, v: nat :: 0 <= i < |phs| && InSegment(phs[i], v) ==>
      AttrOf(areas, v).Some? && AsHeader(AttrOf(areas, v).value.flags, phs[i])
  }

  /** Every page of a segment is translated, for the program, and writable exactly if its header says so. */
  ghost predicate Opened(flat: map<nat, Pte>, phs: seq<Phdr>) {
    forall i, p: nat :: 0 <= i < |phs| && InSegment(phs[i], p) && Aligned(p) ==> p in flat && OpenAs(flat[p].flags, phs[i])
  }

  /** The pages of the segment are translated like that, all others as before. */
  ghost predicate Opens(flat: map<nat, Pte>, flat': map<nat, Pte>, ph: Phdr) {
    && SameOutside(flat, flat', FirstPage(ph), EndPage(ph))
    && forall p: nat :: InSegment(ph, p) && Aligned(p) ==> p in flat' && OpenAs(flat'[p].flags, ph)
  }

  lemma OpensIs(a: Area, ph: Phdr, flat: map<nat, Pte>, flat': map<nat, Pte>)
    requires Loads(ph) && a.start == FirstPage(ph) && a.end == EndPage(ph) && a.flags == SegmentFlags(ph)
    requires a.kind == Anon && !a.alloc.lazy && !a.alloc.cow
    requires AsAsked(a, flat, flat') && SameOutside(flat, flat', a.start, a.end)
    ensures Opens(flat, flat', ph)
  {
    forall p: nat | InSegment(ph, p) && Aligned(p)
      ensures p in flat' && OpenAs(flat'[p].flags, ph)
    {
      assert p in Pages(a.start, a.end);
    }
  }

  lemma OpenedMore(flat: map<nat, Pte>, flat': map<nat, Pte>, phs: seq<Phdr>, i: nat)
    requires i < |phs| && Opened(flat, phs[..i]) && AllApart(phs[..i + 1])
    requires if Loads(phs[i]) then Opens(flat, flat', phs[i]) else flat' == flat
    ensures Opened(flat', phs[..i + 1])
  {
    var before, now := phs[..i], phs[..i + 1];
    forall k, p: nat | 0 <= k < |now| && InSegment(now[k], p) && Aligned(p)
      ensures p in flat' && OpenAs(flat'[p].flags, now[k])
    {
      if k < i {
        assert now[k] == before[k] && InSegment(before[k], p) && Apart(now[k], now[i]);
        if Loads(phs[i]) {
          assert Lookup(flat', p) == Lookup(flat, p);
        }
      }
    }
  }

  /** The areas are those of before and one more for the segment. */
  ghost predicate SegmentAdded(areas: seq<Area>, areas': seq<Area>, ph: Phdr) {
    forall v: nat ::
      if InSegment(ph, v) then
        && AttrOf(areas', v).Some? && AsHeader(AttrOf(areas', v).value.flags, ph)
        && AttrOf(areas', v).value.kind == Anon && AttrOf(areas', v).value.alloc == AllocFlags(false, true, false)
      else AttrOf(areas', v) == AttrOf(areas, v)
  }

  lemma SegmentAddedIs(areas: seq<Area>, a: Area, ph: Phdr)
    requires Sorted(areas) && Clear(areas, a.start, a.end) && Loads(ph) && AllAnonymous(areas)
    requires a.start == FirstPage(ph) && a.end == EndPage(ph) && a.flags == SegmentFlags(ph) && a.kind.Anon?
             && a.start < a.end && a.alloc == AllocFlags(false, true, false)
    ensures SegmentAdded(areas, Insert(areas, a), ph) && AllAnonymous(Insert(areas, a))
  {
    hide AttrOf;
    InsertKeeps(areas, a);
  }

  lemma MapsFully(areas: seq<Area>, areas': seq<Area>, ph: Phdr, flat: map<nat, Pte>, flat': map<nat, Pte>,
                  flags: Flags)
    requires SegmentAdded(areas, areas', ph) && FullyMapped(areas, flat) && Loads(ph)
    requires SameOutside(flat, flat', FirstPage(ph), EndPage(ph))
             && BackedPages(flat', FirstPage(ph), EndPage(ph), flags)
    ensures FullyMapped(areas', flat')
  {
    hide AttrOf;
    forall v: nat | IsPage(v) && AttrOf(areas', v).Some?
      ensures v in flat'
    {
      if InSegment(ph, v) {
        assert v in Pages(FirstPage(ph), EndPage(ph));
      } else {
        assert Lookup(flat', v) == Lookup(flat, v);
      }
    }
  }

  /** Mapping adds the pages of the range to what the space shows. */
  lemma ShownExtended(flat: map<nat, Pte>, flat': map<nat, Pte>, data: map<nat, seq<Byte>>, from: nat, to: nat,
                      flags: Flags)
    requires SameOutside(flat, flat', from, to) && BackedPages(flat', from, to, flags) && Aligned(from) && Aligned(to)
    requires Distinct(flat, data) && Distinct(flat', data) && forall v :: v in flat ==> v < from || to <= v
    ensures Extended(Shown(flat, data), Shown(flat', data), from, to)
  {
    var pages, pages' := Shown(flat, data), Shown(flat', data);
    forall p: nat
      ensures p in pages' <==> p in pages || (Aligned(p) && from <= p < to)
    {
      assert p in flat' ==> IsPage(p);
      if from <= p < to {
        assert Aligned(p) ==> p in Pages(from, to);
      } else {
        assert Lookup(flat', p) == Lookup(flat, p);
      }
    }
    forall v: nat | v < from || to <= v
      ensures ByteAt(pages', v) == ByteAt(pages, v)
    {
      OutsidePage(v, from, to);
      assert Lookup(flat', AlignDown(v)) == Lookup(flat, AlignDown(v));
    }
  }

  lemma OutsidePage(v: nat, from: nat, to: nat)
    requires Aligned(from) && Aligned(to) && (v < from || to <= v)
    ensures AlignDown(v) < from || to <= AlignDown(v)
  {
  }

  /** Zero the pages of a range, as the eager loop of vmm_map_region_internal does. */
  method ZeroPages(space: VmSpace, ram: Ram, from: nat, to: nat)
    requires space.Shape() && ram.Covers(space.frames.managed) && Distinct(space.pages.flat, ram.data)
    requires Aligned(from) && Aligned(to) && from <= to <= USER_END
    requires forall v :: v in Pages(from, to) ==> v in space.pages.flat
    modifies ram
    ensures ram.Covers(space.frames.managed) && Distinct(space.pages.flat, ram.data)
    ensures Zeroed(old(Shown(space.pages.flat, ram.data)), Shown(space.pages.flat, ram.data), from, to)
  {
    hide ByteAt;
    hide Sound;
    hide Frames.Valid;
    hide Listed;
    hide TotalSize;
    hide Shown;
    hide Distinct;
    hide Zeroed;
    ghost var flat, pages := space.pages.flat, Shown(space.pages.flat, ram.data);
    ShownWhole(flat, ram.data);
    ZeroedStart(pages, from);
    var v := from;
    while v < to
      invariant from <= v <= to && Aligned(v)
      invariant ram.Covers(space.frames.managed) && Distinct(flat, ram.data)
      invariant Zeroed(pages, Shown(flat, ram.data), from, v)
    {
      AlignedSelf(v);
      assert v in Pages(from, to);
      var phys := space.pages.VirtToPhys(v);
      DistinctAt(flat, ram.data, v);
      ShownWrite(flat, ram.data, v, ZeroPage());
      assert v in pages.Keys;
      ZeroedStep(pages, Shown(flat, ram.data), from, v);
      ram.data := ram.data[phys := ZeroPage()];
      v := v + FrameAllocator.PAGE_SIZE;
    }
  }

  /** The vmm_map_region call of load_segments: new zeroed pages over the range of a segment. */
  method MapSegment(space: VmSpace, ram: Ram, ph: Phdr) returns (ok: bool)
    requires Loading(space, ram) && Loads(ph) && EndPage(ph) <= USER_END
    modifies space, space.pages, space.frames, ram
    ensures Loading(space, ram) && space.frames.managed == old(space.frames.managed)
    ensures ok ==>
              ZeroMapped(old(Shown(space.pages.flat, ram.data)), Shown(space.pages.flat, ram.data), FirstPage(ph), EndPage(ph))
    ensures ok ==> SegmentAdded(old(space.areas), space.areas, ph) && Opens(old(space.pages.flat), space.pages.flat, ph)
    ensures ok ==> Used(old(space.frames.free), space.frames.free, Needs(ph))
    ensures !ok ==> !Clear(old(space.areas), FirstPage(ph), EndPage(ph)) || Lacks(old(space.frames.free), ph)
  {
    hide ByteAt;
    hide Sound;
    hide Frames.Valid;
    hide Owners;
    hide Conserved;
    hide AttrOf;
    hide TotalSize;
    hide PhysMapped;
    hide Insert;
    hide Shown;
    hide Distinct;
    hide Zeroed;
    hide Used;
    hide TooFewFrames;
    hide AsAsked;
    hide Opens;
    ghost var w0, areas0, flat0 := space.ViewOf(space.areas), space.areas, space.pages.flat;
    ghost var pages0 := Shown(flat0, ram.data);
    var from, to := AlignDown(ph.vaddr), AlignUp(ph.vaddr + ph.memsz);
    AlignedRange(from, to);
    ghost var a;
    ok, a := space.MapRegion(from, to - from, SegmentFlags(ph), Anon, AllocFlags(false, true, false), 0);
    ghost var w1 := space.ViewOf(space.areas);
    ManagedFacts(w0, w1, space.frames);
    if !ok {
      LacksFrames(w0.free, a, ph);
      return;
    }
    SegmentAddedIs(areas0, a, ph);
    OpensIs(a, ph, flat0, space.pages.flat);
    FlatPages(space.pages);
    OwnFrames(w1, ram.data);
    NoTranslationInClear(w0, from, to);
    ghost var flags := ArchFlags(ToAccess(a.flags), space.pages.globalPages);
    MapsFully(areas0, space.areas, ph, flat0, space.pages.flat, flags);
    ShownExtended(flat0, space.pages.flat, ram.data, from, to, flags);
    ghost var pages1 := Shown(space.pages.flat, ram.data);
    ZeroPages(space, ram, from, to);
    MappedThenZeroed(pages0, pages1, Shown(space.pages.flat, ram.data), from, to);
  }

  lemma ManagedFacts(w: View, w': View, frames: Frames)
    requires Conserved(w, w') && frames.Valid() && frames.managed == w'.managed
    ensures w'.managed == w.managed && 0 !in w'.managed
  {
  }

  /** The bytes that mapping a segment may cost, in frames of 1024 bytes: its descriptor, its pages and tables. */
  function Needs(ph: Phdr): nat {
    if Loads(ph) && FirstPage(ph) <= EndPage(ph) then EndPage(ph) - FirstPage(ph) + BYTES_PER_FRAME else 0
  }

  ghost predicate Lacks(free: set<nat>, ph: Phdr) {
    |free| * BYTES_PER_FRAME <= Needs(ph)
  }

  lemma LacksFrames(free: set<nat>, a: Area, ph: Phdr)
    requires Loads(ph) && a.start == FirstPage(ph) && a.end == EndPage(ph) && a.start < a.end
    ensures TooFewFrames(free, a) ==> Lacks(free, ph)
  {
  }

  // ---------------------------------------------------------------- all segments

  /** The pages of two segments do not meet. */
  predicate Apart(a: Phdr, b: Phdr) {
    !Loads(a) || !Loads(b) || EndPage(a) <= FirstPage(b) || EndPage(b) <= FirstPage(a)
  }

  ghost predicate AllInPlace(pages: Image, data: seq<Byte>, phs: seq<Phdr>) {
    forall i :: 0 <= i < |phs| && Loads(phs[i]) ==> InPlace(pages, data, phs[i])
  }

  ghost predicate AllApart(phs: seq<Phdr>) {
    forall i, j :: 0 <= i < j < |phs| ==> Apart(phs[i], phs[j])
  }

  ghost predicate InSome(phs: seq<Phdr>, v: nat) {
    exists i :: 0 <= i < |phs| && InSegment(phs[i], v)
  }

  /** Exactly the pages of segments are there. */
  ghost predicate Covers(pages: Image, phs: seq<Phdr>) {
    forall p: nat :: p in pages <==> Aligned(p) && InSome(phs, p)
  }

  /** The headers say what memory holds: every segment in place, no two over each other, nothing else mapped. */
  ghost predicate Loaded(pages: Image, data: seq<Byte>, phs: seq<Phdr>) {
    WholePages(pages) && AllInPlace(pages, data, phs) && AllApart(phs) && Covers(pages, phs)
  }

  /** The file holds the bytes of every segment. */
  ghost predicate InFile(data: seq<Byte>, phs: seq<Phdr>) {
    forall i :: 0 <= i < |phs| && Loads(phs[i]) ==> phs[i].offset + phs[i].filesz <= |data|
  }

  /** The copy of a header stays on pages of the segments so far. */
  ghost predicate Lands(phs: seq<Phdr>, ph: Phdr) {
    forall v: nat :: InCopy(ph, v) ==> InSome(phs, v)
  }

  ghost predicate AllLand(phs: seq<Phdr>) {
    forall i :: 0 <= i < |phs| ==> Lands(phs[..i + 1], phs[i])
  }

  /** What loading the headers one after the other leaves at an address: new pages bring zeros, copies bring the bytes
      of the file. */
  ghost function Left(data: seq<Byte>, phs: seq<Phdr>, v: nat): Option<Byte>
    requires InFile(data, phs)
  {
    if phs == [] then None
    else
      var ph := phs[|phs| - 1];
      if InCopy(ph, v) then Some(data[ph.offset + (v - ph.vaddr)])
      else if InSegment(ph, v) then Some(0)
      else Left(data, phs[..|phs| - 1], v)
  }

  ghost predicate HoldsLeft(pages: Image, data: seq<Byte>, phs: seq<Phdr>)
    requires InFile(data, phs)
  {
    forall v: nat :: ByteAt(pages, v) == Left(data, phs, v)
  }

  /** What load_segments leaves behind, whatever the headers say. */
  ghost predicate Filled(areas: seq<Area>, pages: Image, data: seq<Byte>, phs: seq<Phdr>) {
    && WholePages(pages) && Covers(pages, phs) && AllApart(phs) && AllLand(phs)
    && InFile(data, phs) && HoldsLeft(pages, data, phs) && Protected(areas, phs)
  }

  lemma InSomeMore(phs: seq<Phdr>, i: nat, p: nat)
    requires i < |phs|
    ensures InSome(phs[..i + 1], p) <==> InSome(phs[..i], p) || InSegment(phs[i], p)
  {
    var before, now := phs[..i], phs[..i + 1];
    if k :| 0 <= k < |before| && InSegment(before[k], p) {
      assert InSegment(now[k], p);
    }
    if InSegment(phs[i], p) {
      assert InSegment(now[i], p);
    }
    if k :| 0 <= k < |now| && InSegment(now[k], p) {
      assert k < i ==> InSegment(before[k], p);
    }
  }

  /** Segments are whole pages. */
  lemma InSomePage(phs: seq<Phdr>, v: nat)
    ensures InSome(phs, AlignDown(v)) <==> InSome(phs, v)
  {
    if k :| 0 <= k < |phs| && InSegment(phs[k], AlignDown(v)) {
      assert InSegment(phs[k], v);
    }
    if k :| 0 <= k < |phs| && InSegment(phs[k], v) {
      assert InSegment(phs[k], AlignDown(v));
    }
  }

  lemma ApartMore(phs: seq<Phdr>, i: nat)
    requires i < |phs| && AllApart(phs[..i]) && forall k :: 0 <= k < i ==> Apart(phs[k], phs[i])
    ensures AllApart(phs[..i + 1])
  {
    var before, now := phs[..i], phs[..i + 1];
    forall j, k | 0 <= j < k < |now|
      ensures Apart(now[j], now[k])
    {
      assert k < i ==> Apart(before[j], before[k]);
    }
  }

  lemma InFileMore(data: seq<Byte>, phs: seq<Phdr>, i: nat)
    requires i < |phs| && InFile(data, phs[..i]) && (Loads(phs[i]) ==> phs[i].offset + phs[i].filesz <= |data|)
    ensures InFile(data, phs[..i + 1])
  {
    var before, now := phs[..i], phs[..i + 1];
    forall k | 0 <= k < |now| && Loads(now[k])
      ensures now[k].offset + now[k].filesz <= |data|
    {
      assert k < i ==> now[k] == before[k];
    }
  }

  lemma LandMore(phs: seq<Phdr>, i: nat)
    requires i < |phs| && AllLand(phs[..i]) && Lands(phs[..i + 1], phs[i])
    ensures AllLand(phs[..i + 1])
  {
    hide Lands;
    var before, now := phs[..i], phs[..i + 1];
    forall k | 0 <= k < |now|
      ensures Lands(now[..k + 1], now[k])
    {
      assert now[..k + 1] == phs[..k + 1];
      if k < i {
        assert before[..k + 1] == phs[..k + 1] && before[k] == phs[k];
      }
    }
  }

  lemma SegmentOf(ph: Phdr, p: nat)
    requires Loads(ph)
    ensures InSegment(ph, p) <==> FirstPage(ph) <= p < EndPage(ph)
  {
  }

  lemma SegmentsApart(pages: Image, phs: seq<Phdr>, k: nat, ph: Phdr)
    requires k < |phs| && Loads(ph) && (forall p: nat :: FirstPage(ph) <= p < EndPage(ph) ==> p !in pages)
    requires Covers(pages, phs)
    ensures Apart(phs[k], ph)
  {
    if Loads(phs[k]) {
      var a, b := FirstPage(phs[k]), FirstPage(ph);
      var p := if a > b then a else b;
      assert InSegment(phs[k], p) ==> InSome(phs, p) && p in pages;
      assert b <= p < EndPage(ph) ==> p !in pages;
    }
  }

  lemma CoversMore(pages: Image, mid: Image, after: Image, phs: seq<Phdr>, i: nat)
    requires i < |phs| && Loads(phs[i]) && Covers(pages, phs[..i]) && after.Keys == mid.Keys
    requires ZeroMapped(pages, mid, FirstPage(phs[i]), EndPage(phs[i]))
    ensures Covers(after, phs[..i + 1])
  {
    hide ByteAt;
    hide InSome;
    hide InSegment;
    forall p: nat
      ensures p in after <==> Aligned(p) && InSome(phs[..i + 1], p)
    {
      InSomeMore(phs, i, p);
      SegmentOf(phs[i], p);
      assert p in after.Keys <==> p in mid.Keys;
    }
  }

  lemma HoldsMore(pages: Image, mid: Image, after: Image, data: seq<Byte>, phs: seq<Phdr>, i: nat)
    requires i < |phs| && Loads(phs[i]) && InFile(data, phs[..i]) && InFile(data, phs[..i + 1])
    requires HoldsLeft(pages, data, phs[..i]) && ZeroMapped(pages, mid, FirstPage(phs[i]), EndPage(phs[i]))
    requires Copied(mid, after, data, phs[i].offset, phs[i].vaddr, phs[i].filesz)
    ensures HoldsLeft(after, data, phs[..i + 1])
  {
    hide ByteAt;
    var ph, now := phs[i], phs[..i + 1];
    assert now[..i] == phs[..i] && now[i] == ph;
    forall v: nat
      ensures ByteAt(after, v) == Left(data, now, v)
    {
      assert ByteAt(mid, v) == if InSegment(ph, v) then Some(0) else Left(data, phs[..i], v);
    }
  }

  /** A copy that went through has landed. */
  lemma CopiedLands(mid: Image, after: Image, data: seq<Byte>, phs: seq<Phdr>, ph: Phdr)
    requires Copied(mid, after, data, ph.offset, ph.vaddr, ph.filesz) && Covers(after, phs)
    ensures Lands(phs, ph)
  {
    hide InSome;
    forall v: nat | InCopy(ph, v)
      ensures InSome(phs, v)
    {
      assert ByteAt(after, v).Some?;
      InSomePage(phs, v);
    }
  }

  lemma ProtectedMore(areas: seq<Area>, areas': seq<Area>, phs: seq<Phdr>, i: nat)
    requires i < |phs| && Protected(areas, phs[..i]) && AllApart(phs[..i + 1])
    requires if Loads(phs[i]) then SegmentAdded(areas, areas', phs[i]) else areas' == areas
    ensures Protected(areas', phs[..i + 1])
  {
    hide AttrOf;
    var before, now := phs[..i], phs[..i + 1];
    forall k, v: nat | 0 <= k < |now| && InSegment(now[k], v)
      ensures AttrOf(areas', v).Some? && AsHeader(AttrOf(areas', v).value.flags, now[k])
    {
      if k < i {
        assert now[k] == before[k] && Apart(now[k], now[i]) && InSegment(before[k], v);
        assert !InSegment(phs[i], v);
      }
    }
  }

  /** One more segment, over pages that were free. */
  lemma FilledStep(areas: seq<Area>, areas': seq<Area>, pages: Image, mid: Image, after: Image,
                   data: seq<Byte>, phs: seq<Phdr>, i: nat)
    requires i < |phs| && Filled(areas, pages, data, phs[..i]) && Loads(phs[i])
    requires ZeroMapped(pages, mid, FirstPage(phs[i]), EndPage(phs[i])) && SegmentAdded(areas, areas', phs[i])
    requires Copied(mid, after, data, phs[i].offset, phs[i].vaddr, phs[i].filesz)
    ensures Filled(areas', after, data, phs[..i + 1])
  {
    hide ByteAt;
    hide AttrOf;
    hide InSome;
    hide Apart;
    hide Covers;
    hide Lands;
    hide AllLand;
    hide AllApart;
    hide InFile;
    hide HoldsLeft;
    hide Protected;
    hide SegmentAdded;
    var ph, before := phs[i], phs[..i];
    forall k | 0 <= k < i
      ensures Apart(phs[k], ph)
    {
      assert before[k] == phs[k];
      SegmentsApart(pages, before, k, ph);
    }
    ApartMore(phs, i);
    InFileMore(data, phs, i);
    CoversMore(pages, mid, after, phs, i);
    CopiedLands(mid, after, data, phs[..i + 1], ph);
    LandMore(phs, i);
    HoldsMore(pages, mid, after, data, phs, i);
    ProtectedMore(areas, areas', phs, i);
  }

  lemma FilledSkips(areas: seq<Area>, pages: Image, data: seq<Byte>, phs: seq<Phdr>, i: nat)
    requires i < |phs| && Filled(areas, pages, data, phs[..i]) && !Loads(phs[i])
    ensures Filled(areas, pages, data, phs[..i + 1])
  {
    hide ByteAt;
    hide InSome;
    hide Protected;
    hide AllLand;
    hide InFile;
    var now := phs[..i + 1];
    ApartMore(phs, i);
    InFileMore(data, phs, i);
    LandMore(phs, i);
    ProtectedMore(areas, areas, phs, i);
    forall p: nat
      ensures InSome(now, p) <==> InSome(phs[..i], p)
    {
      InSomeMore(phs, i, p);
    }
    assert now[..i] == phs[..i] && now[i] == phs[i];
  }

  lemma NothingFilled(data: seq<Byte>, phs: seq<Phdr>)
    ensures Filled([], map[], data, phs[..0])
  {
    assert phs[..0] == [];
  }

  // ---------------------------------------------------------------- when memory is what the headers say

  /** No later copy goes over the one of header j at this address. */
  predicate LastCopy(phs: seq<Phdr>, j: int, v: nat) {
    0 <= j < |phs| && InCopy(phs[j], v) && forall k :: j < k < |phs| ==> !InCopy(phs[k], v)
  }

  /** Where the copy of one header runs into the segment of another, it brings the byte wanted there. */
  ghost predicate Agree(data: seq<Byte>, phs: seq<Phdr>)
    requires InFile(data, phs)
  {
    forall i, j, v: nat :: 0 <= i < |phs| && InSegment(phs[i], v) && LastCopy(phs, j, v) ==>
      Wanted(data, phs[j], v) == Wanted(data, phs[i], v)
  }

  /** The file bytes of every header stay on the pages of its own segment. */
  predicate Fits(phs: seq<Phdr>) {
    forall i :: 0 <= i < |phs| && Loads(phs[i]) ==> phs[i].vaddr + phs[i].filesz <= EndPage(phs[i])
  }

  lemma {:induction false} ACopyIsLast(phs: seq<Phdr>, k: nat, v: nat) returns (j: nat)
    requires k < |phs| && InCopy(phs[k], v)
    ensures LastCopy(phs, j, v)
    decreases |phs| - k
  {
    if m :| k < m < |phs| && InCopy(phs[m], v) {
      j := ACopyIsLast(phs, m, v);
    } else {
      j := k;
    }
  }

  lemma PrefixFacts(data: seq<Byte>, phs: seq<Phdr>)
    requires phs != [] && AllApart(phs) && AllLand(phs) && InFile(data, phs)
    ensures var rest := phs[..|phs| - 1]; AllApart(rest) && AllLand(rest) && InFile(data, rest)
  {
    hide Lands;
    hide Apart;
    var rest := phs[..|phs| - 1];
    assert forall k :: 0 <= k < |rest| ==> rest[k] == phs[k] && rest[..k + 1] == phs[..k + 1];
  }

  /** A page is new before bytes are copied to it. */
  lemma NotMappedAgain(phs: seq<Phdr>, j: nat, k: nat, v: nat)
    requires AllApart(phs) && AllLand(phs) && j < k < |phs| && InCopy(phs[j], v)
    ensures !InSegment(phs[k], v)
  {
    hide InSegment;
    hide InCopy;
    var upTo := phs[..j + 1];
    assert Lands(upTo, phs[j]);
    var m :| 0 <= m < |upTo| && InSegment(upTo[m], v);
    assert upTo[m] == phs[m] && Apart(phs[m], phs[k]);
    ApartExcludes(phs[m], phs[k], v);
  }

  lemma ApartExcludes(a: Phdr, b: Phdr, v: nat)
    requires Apart(a, b) && InSegment(a, v)
    ensures !InSegment(b, v)
  {
  }

  /** The last copy is what is left. */
  lemma {:induction false} LeftOfCopy(data: seq<Byte>, phs: seq<Phdr>, j: nat, v: nat)
    requires AllApart(phs) && AllLand(phs) && InFile(data, phs) && LastCopy(phs, j, v)
    ensures Left(data, phs, v) == Some(Wanted(data, phs[j], v))
    decreases |phs|
  {
    hide AllApart;
    hide AllLand;
    hide InSegment;
    var last := |phs| - 1;
    if j < last {
      var rest := phs[..last];
      NotMappedAgain(phs, j, last, v);
      PrefixFacts(data, phs);
      assert rest[j] == phs[j] && forall k :: 0 <= k < last ==> rest[k] == phs[k];
      LeftOfCopy(data, rest, j, v);
    }
  }

  lemma {:induction false} LeftOfZero(data: seq<Byte>, phs: seq<Phdr>, i: nat, v: nat)
    requires InFile(data, phs) && i < |phs| && InSegment(phs[i], v)
    requires forall k :: 0 <= k < |phs| ==> !InCopy(phs[k], v)
    ensures Left(data, phs, v) == Some(0)
    decreases |phs|
  {
    var last := |phs| - 1;
    if !InSegment(phs[last], v) {
      var rest := phs[..last];
      assert rest[i] == phs[i] && forall k :: 0 <= k < last ==> rest[k] == phs[k];
      LeftOfZero(data, rest, i, v);
    }
  }

  lemma SegmentByte(data: seq<Byte>, phs: seq<Phdr>, i: nat, v: nat)
    requires AllApart(phs) && AllLand(phs) && InFile(data, phs) && i < |phs| && InSegment(phs[i], v)
    ensures Left(data, phs, v) == Some(Wanted(data, phs[i], v)) <==>
            forall j :: LastCopy(phs, j, v) ==> Wanted(data, phs[j], v) == Wanted(data, phs[i], v)
  {
    hide Left;
    hide AllApart;
    hide AllLand;
    if k :| 0 <= k < |phs| && InCopy(phs[k], v) {
      var j := ACopyIsLast(phs, k, v);
      LeftOfCopy(data, phs, j, v);
      assert forall m :: LastCopy(phs, m, v) ==> m == j;
    } else {
      LeftOfZero(data, phs, i, v);
    }
  }

  /** Of what load_segments leaves behind: it is what the headers say exactly if no copy brings a foreign byte into a
      segment. */
  lemma LoadedExactly(areas: seq<Area>, pages: Image, data: seq<Byte>, phs: seq<Phdr>)
    requires Filled(areas, pages, data, phs)
    ensures Loaded(pages, data, phs) <==> Agree(data, phs)
  {
    hide ByteAt;
    hide Left;
    hide Wanted;
    hide Covers;
    hide AllLand;
    hide AllApart;
    hide Protected;
    forall i, v: nat | 0 <= i < |phs| && InSegment(phs[i], v)
      ensures ByteAt(pages, v) == Some(Wanted(data, phs[i], v)) <==>
              forall j :: LastCopy(phs, j, v) ==> Wanted(data, phs[j], v) == Wanted(data, phs[i], v)
    {
      SegmentByte(data, phs, i, v);
    }
  }

  /** File bytes that reach past the pages of their segment are in segments loaded before, unless a later copy went
      over them. */
  lemma SpillsBack(areas: seq<Area>, pages: Image, data: seq<Byte>, phs: seq<Phdr>, i: nat, v: nat)
    requires Filled(areas, pages, data, phs) && i < |phs| && InCopy(phs[i], v) && EndPage(phs[i]) <= v
    ensures InSome(phs[..i], v)
    ensures LastCopy(phs, i, v) ==> ByteAt(pages, v) == Some(Wanted(data, phs[i], v))
  {
    hide ByteAt;
    hide InSome;
    hide Left;
    assert Lands(phs[..i + 1], phs[i]);
    InSomeMore(phs, i, v);
    if LastCopy(phs, i, v) {
      LeftOfCopy(data, phs, i, v);
    }
  }

  /** File bytes that stay on the pages of their own segment meet no other segment and no hole. */
  lemma FitsLands(phs: seq<Phdr>)
    requires Fits(phs)
    ensures AllLand(phs)
  {
    forall i, v: nat | 0 <= i < |phs| && InCopy(phs[i], v)
      ensures InSome(phs[..i + 1], v)
    {
      assert InSegment(phs[..i + 1][i], v);
    }
  }

  lemma FitsAgree(data: seq<Byte>, phs: seq<Phdr>)
    requires Fits(phs) && AllApart(phs) && InFile(data, phs)
    ensures Agree(data, phs)
  {
    forall i, j, v: nat | 0 <= i < |phs| && InSegment(phs[i], v) && LastCopy(phs, j, v)
      ensures i == j
    {
      assert InSegment(phs[j], v);
    }
  }

  // ---------------------------------------------------------------- the loop over the headers

  /** The header keeps to the user half. */
  predicate InUserHalf(ph: Phdr) {
    Loads(ph) ==> EndPage(ph) <= USER_END && ph.vaddr + ph.filesz <= USER_END
  }

  function NeedsAll(phs: seq<Phdr>): nat {
    if phs == [] then 0 else NeedsAll(phs[..|phs| - 1]) + Needs(phs[|phs| - 1])
  }

  /** load_segments on a new space. Success leaves memory and protections as the headers say exactly if the copies
      agree with the segments they meet, in particular if they stay on their own pages. With enough free frames it
      succeeds exactly if no two segments share a page, all bytes are in the file and every copy lands on segments
      that are already there. */
  method LoadSegments(space: VmSpace, ram: Ram, data: seq<Byte>, phs: seq<Phdr>) returns (ok: bool)
    requires space.Valid() && space.areas == [] && space.pages.flat == map[] && ram.Covers(space.frames.managed)
    requires forall i :: 0 <= i < |phs| ==> InUserHalf(phs[i])
    modifies space, space.pages, space.frames, ram
    ensures space.Valid()
    ensures ok ==> Filled(space.areas, Shown(space.pages.flat, ram.data), data, phs) && Opened(space.pages.flat, phs)
    ensures ok ==> (Loaded(Shown(space.pages.flat, ram.data), data, phs) <==> Agree(data, phs))
    ensures ok && Fits(phs) ==> Loaded(Shown(space.pages.flat, ram.data), data, phs)
    ensures |old(space.frames.free)| * BYTES_PER_FRAME > NeedsAll(phs) ==>
              (ok <==> AllApart(phs) && InFile(data, phs) && AllLand(phs))
    ensures |old(space.frames.free)| * BYTES_PER_FRAME > NeedsAll(phs) && Fits(phs) ==>
              (ok <==> AllApart(phs) && InFile(data, phs))
  {
    hide Loading;
    hide Filled;
    hide AllApart;
    hide AllLand;
    hide Used;
    hide NeedsAll;
    hide Shown;
    hide Clear;
    hide Loaded;
    hide Fits;
    hide Agree;
    hide Owners;
    hide Sound;
    hide Frames.Valid;
    hide VmSpace.Valid;
    hide Ram.Covers;
    hide Needs;
    hide Lacks;
    hide Lands;
    hide Opened;
    LoadingStart(space, ram, data, phs);
    ghost var free0 := space.frames.free;
    UsedNothing(free0, 0);
    if Fits(phs) {
      FitsLands(phs);
    }
    var i := 0;
    while i < |phs|
      invariant 0 <= i <= |phs| && Loading(space, ram)
      invariant Used(free0, space.frames.free, NeedsAll(phs[..i]))
      invariant Filled(space.areas, Shown(space.pages.flat, ram.data), data, phs[..i])
      invariant Opened(space.pages.flat, phs[..i])
    {
      var ph := phs[i];
      assert InUserHalf(ph);
      ApartIsClear(space, ram, data, phs, i);
      ghost var free1 := space.frames.free;
      UsedNothing(free1, Needs(ph));
      LacksEarly(free0, free1, phs, i);
      LandsAt(phs, i);
      if Loads(ph) {
        if ph.offset + ph.filesz > |data| {
          LoadingValid(space, ram);
          return false;
        }
        ok := LoadSegment(space, ram, data, ph, phs, i);
        if !ok {
          LoadingValid(space, ram);
          return false;
        }
      } else {
        FilledSkips(space.areas, Shown(space.pages.flat, ram.data), data, phs, i);
        OpenedSkips(space.areas, space.pages.flat, Shown(space.pages.flat, ram.data), data, phs, i);
      }
      NeedsStep(free0, free1, space.frames.free, phs, i);
      i := i + 1;
    }
    assert phs[..i] == phs;
    LoadingValid(space, ram);
    FilledEnds(space.areas, Shown(space.pages.flat, ram.data), data, phs);
    ok := true;
  }

  lemma LandsAt(phs: seq<Phdr>, i: nat)
    requires i < |phs|
    ensures AllLand(phs) ==> Lands(phs[..i + 1], phs[i])
  {
  }

  lemma FilledEnds(areas: seq<Area>, pages: Image, data: seq<Byte>, phs: seq<Phdr>)
    requires Filled(areas, pages, data, phs)
    ensures AllApart(phs) && InFile(data, phs) && AllLand(phs)
    ensures Loaded(pages, data, phs) <==> Agree(data, phs)
    ensures Fits(phs) ==> Agree(data, phs)
  {
    hide Agree;
    hide Loaded;
    LoadedExactly(areas, pages, data, phs);
    if Fits(phs) {
      FitsAgree(data, phs);
    }
  }

  lemma LoadingStart(space: VmSpace, ram: Ram, data: seq<Byte>, phs: seq<Phdr>)
    requires space.Valid() && space.areas == [] && space.pages.flat == map[] && ram.Covers(space.frames.managed)
    ensures Loading(space, ram) && NeedsAll(phs[..0]) == 0
    ensures Filled(space.areas, Shown(space.pages.flat, ram.data), data, phs[..0]) && Opened(space.pages.flat, phs[..0])
  {
    hide Owners;
    hide Sound;
    hide Frames.Valid;
    hide Filled;
    assert Shown(map[], ram.data) == map[];
    NothingFilled(data, phs);
  }

  lemma LoadingValid(space: VmSpace, ram: Ram)
    requires Loading(space, ram)
    ensures space.Valid()
  {
    hide Owners;
    hide Sound;
    hide Frames.Valid;
  }

  /** One segment: its pages, then its bytes. */
  method LoadSegment(space: VmSpace, ram: Ram, data: seq<Byte>, ph: Phdr, ghost phs: seq<Phdr>,
                     ghost i: nat) returns (ok: bool)
    requires Loading(space, ram) && Loads(ph) && InUserHalf(ph) && ph.offset + ph.filesz <= |data|
    requires i < |phs| && phs[i] == ph
    requires Filled(space.areas, Shown(space.pages.flat, ram.data), data, phs[..i]) && Opened(space.pages.flat, phs[..i])
    modifies space, space.pages, space.frames, ram
    ensures Loading(space, ram) && space.frames.managed == old(space.frames.managed)
    ensures ok ==> Used(old(space.frames.free), space.frames.free, Needs(ph))
    ensures ok ==> Filled(space.areas, Shown(space.pages.flat, ram.data), data, phs[..i + 1])
                   && Opened(space.pages.flat, phs[..i + 1])
    ensures !ok ==> || !Clear(old(space.areas), FirstPage(ph), EndPage(ph)) || Lacks(old(space.frames.free), ph)
                    || !Lands(phs[..i + 1], ph)
  {
    hide ByteAt;
    hide Sound;
    hide Frames.Valid;
    hide Owners;
    hide AttrOf;
    hide TotalSize;
    hide PhysMapped;
    hide Shown;
    hide Distinct;
    hide ZeroMapped;
    hide Copied;
    hide SegmentAdded;
    hide Filled;
    hide Used;
    hide Lacks;
    hide Clear;
    hide Listed;
    hide Lands;
    hide Opens;
    hide Opened;
    hide AllApart;
    ghost var areas0, flat0, pages0 := space.areas, space.pages.flat, Shown(space.pages.flat, ram.data);
    ok := MapSegment(space, ram, ph);
    if !ok {
      return;
    }
    ghost var flat, pages1 := space.pages.flat, Shown(space.pages.flat, ram.data);
    ThereToCopy(areas0, pages0, pages1, flat, ram.data, data, phs, i);
    ok := CopySegment(space, ram, data, ph);
    if ok {
      FilledStep(areas0, space.areas, pages0, pages1, Shown(flat, ram.data), data, phs, i);
      FilledApart(space.areas, Shown(flat, ram.data), data, phs[..i + 1]);
      OpenedMore(flat0, flat, phs, i);
    }
  }

  lemma FilledApart(areas: seq<Area>, pages: Image, data: seq<Byte>, phs: seq<Phdr>)
    requires Filled(areas, pages, data, phs)
    ensures AllApart(phs)
  {
  }

  lemma OpenedSkips(areas: seq<Area>, flat: map<nat, Pte>, pages: Image, data: seq<Byte>, phs: seq<Phdr>, i: nat)
    requires i < |phs| && Opened(flat, phs[..i]) && !Loads(phs[i]) && Filled(areas, pages, data, phs[..i + 1])
    ensures Opened(flat, phs[..i + 1])
  {
    hide Filled;
    hide Opened;
    FilledApart(areas, pages, data, phs[..i + 1]);
    OpenedMore(flat, flat, phs, i);
  }

  lemma ThereToCopy(areas: seq<Area>, pages: Image, mid: Image, flat: map<nat, Pte>, ram: map<nat, seq<Byte>>,
                    data: seq<Byte>, phs: seq<Phdr>, i: nat)
    requires i < |phs| && Loads(phs[i]) && Filled(areas, pages, data, phs[..i])
    requires ZeroMapped(pages, mid, FirstPage(phs[i]), EndPage(phs[i])) && mid == Shown(flat, ram)
    ensures Lands(phs[..i + 1], phs[i]) ==> PagesThere(flat, phs[i])
  {
    hide ByteAt;
    hide InSome;
    hide HoldsLeft;
    hide Protected;
    hide AllLand;
    hide AllApart;
    var ph := phs[i];
    if Lands(phs[..i + 1], ph) {
      forall p: nat | Aligned(p) && FirstPage(ph) <= p < ph.vaddr + ph.filesz
        ensures p in flat
      {
        if p >= EndPage(ph) {
          assert InCopy(ph, p);
          InSomeMore(phs, i, p);
        }
        assert p in mid;
      }
    }
  }

  /** If the segments are apart, the range of the next one is clear. */
  lemma ApartIsClear(space: VmSpace, ram: Ram, data: seq<Byte>, phs: seq<Phdr>, i: nat)
    requires Loading(space, ram) && i < |phs|
    requires Filled(space.areas, Shown(space.pages.flat, ram.data), data, phs[..i])
    ensures AllApart(phs) && Loads(phs[i]) ==> Clear(space.areas, FirstPage(phs[i]), EndPage(phs[i]))
  {
    hide ByteAt;
    hide Owners;
    hide Sound;
    hide Frames.Valid;
    hide AttrOf;
    hide TotalSize;
    hide PhysMapped;
    hide Protected;
    hide HoldsLeft;
    hide AllLand;
    var pages := Shown(space.pages.flat, ram.data);
    if AllApart(phs) && Loads(phs[i]) {
      RangeFree(pages, phs, i);
      forall k | 0 <= k < |space.areas|
        ensures EndPage(phs[i]) <= space.areas[k].start || space.areas[k].end <= FirstPage(phs[i])
      {
        AreaOutside(space.areas, k, space.pages.flat, ram.data, FirstPage(phs[i]), EndPage(phs[i]));
      }
    }
  }

  /** An area whose pages are all shown does not meet a range that shows none. */
  lemma AreaOutside(areas: seq<Area>, k: nat, flat: map<nat, Pte>, data: map<nat, seq<Byte>>, from: nat, to: nat)
    requires Listed(areas) && k < |areas| && FullyMapped(areas, flat) && Distinct(flat, data) && Aligned(from)
    requires from < to && forall p: nat :: from <= p < to ==> p !in Shown(flat, data)
    ensures to <= areas[k].start || areas[k].end <= from
  {
    hide AttrOf;
    var a := areas[k];
    assert WellFormed(a);
    KindInArea(areas, k);
    var p := if a.start > from then a.start else from;
    if a.start <= p < a.end {
      assert IsPage(p) && AttrOf(areas, p).Some?;
      assert p in flat && p in Shown(flat, data);
    }
  }

  lemma {:induction false} NeedsPrefix(phs: seq<Phdr>, i: nat)
    requires i < |phs|
    ensures NeedsAll(phs[..i]) + Needs(phs[i]) <= NeedsAll(phs)
    ensures NeedsAll(phs[..i + 1]) == NeedsAll(phs[..i]) + Needs(phs[i])
    decreases |phs|
  {
    assert phs[..i + 1][..i] == phs[..i];
    if i < |phs| - 1 {
      var rest := phs[..|phs| - 1];
      NeedsPrefix(rest, i);
      assert rest[..i] == phs[..i] && rest[..i + 1] == phs[..i + 1];
    }
  }

  lemma LacksEarly(free0: set<nat>, free: set<nat>, phs: seq<Phdr>, i: nat)
    requires i < |phs| && Used(free0, free, NeedsAll(phs[..i]))
    ensures |free0| * BYTES_PER_FRAME > NeedsAll(phs) ==> !Lacks(free, phs[i])
  {
    hide NeedsAll;
    NeedsPrefix(phs, i);
  }

  lemma NeedsStep(free0: set<nat>, free1: set<nat>, free2: set<nat>, phs: seq<Phdr>, i: nat)
    requires i < |phs| && Used(free0, free1, NeedsAll(phs[..i])) && Used(free1, free2, Needs(phs[i]))
    ensures Used(free0, free2, NeedsAll(phs[..i + 1]))
  {
    hide NeedsAll;
    NeedsPrefix(phs, i);
  }

  lemma RangeFree(pages: Image, phs: seq<Phdr>, i: nat)
    requires i < |phs| && Covers(pages, phs[..i])
    ensures AllApart(phs) && Loads(phs[i]) ==> forall p: nat :: FirstPage(phs[i]) <= p < EndPage(phs[i]) ==> p !in pages
  {
    if AllApart(phs) && Loads(phs[i]) {
      forall p: nat | p in pages
        ensures !(FirstPage(phs[i]) <= p < EndPage(phs[i]))
      {
        var k :| 0 <= k < |phs[..i]| && InSegment(phs[..i][k], p);
        assert phs[..i][k] == phs[k] && Apart(phs[k], phs[i]);
      }
    }
  }

  /** The second header has more bytes in the file than in memory, and they reach into the first segment. */
  function Oversized(): seq<Phdr> {
    [Phdr(true, true, false, false, 0, 0x2000, 1, 1), Phdr(true, true, false, false, 0, 0x1000, 0x1001, 1)]
  }

  lemma OversizedFacts(data: seq<Byte>)
    requires |data| == 0x1001
    ensures var phs := Oversized(); AllApart(phs) && InFile(data, phs) && AllLand(phs) && NeedsAll(phs) == 10 * BYTES_PER_FRAME
  {
    var phs := Oversized();
    assert FirstPage(phs[0]) == 0x2000 && EndPage(phs[0]) == 0x3000;
    assert FirstPage(phs[1]) == 0x1000 && EndPage(phs[1]) == 0x2000;
    assert phs[..1][..0] == [] && NeedsAll(phs[..1]) == Needs(phs[0]);
    forall i | 0 <= i < 2
      ensures Lands(phs[..i + 1], phs[i])
    {
      forall v: nat | InCopy(phs[i], v)
        ensures InSome(phs[..i + 1], v)
      {
        assert InSegment(phs[..i + 1][if v < 0x2000 then 1 else 0], v);
      }
    }
  }

  /** Two headers on which load_segments succeeds and the second segment overwrites the first. */
  method OversizedOverwrites(space: VmSpace, ram: Ram, data: seq<Byte>) returns (ok: bool)
    requires space.Valid() && space.areas == [] && space.pages.flat == map[] && ram.Covers(space.frames.managed)
    requires |data| == 0x1001 && data[0] != data[0x1000] && |space.frames.free| > 10
    modifies space, space.pages, space.frames, ram
    ensures ok && AllApart(Oversized()) && InFile(data, Oversized())
    ensures !InPlace(Shown(space.pages.flat, ram.data), data, Oversized()[0])
  {
    hide VmSpace.Valid;
    hide Ram.Covers;
    hide Filled;
    hide Loaded;
    hide Agree;
    hide Shown;
    hide InPlace;
    hide AllApart;
    hide AllLand;
    OversizedFacts(data);
    ok := LoadSegments(space, ram, data, Oversized());
    OversizedByte(space.areas, Shown(space.pages.flat, ram.data), data);
  }

  lemma OversizedByte(areas: seq<Area>, pages: Image, data: seq<Byte>)
    requires |data| == 0x1001 && data[0] != data[0x1000] && Filled(areas, pages, data, Oversized())
    ensures !InPlace(pages, data, Oversized()[0])
  {
    hide ByteAt;
    var phs := Oversized();
    assert InSegment(phs[0], 0x2000) && InCopy(phs[1], 0x2000);
    assert ByteAt(pages, 0x2000) == Left(data, phs, 0x2000) == Some(data[0x1000]);
  }

  // ---------------------------------------------------------------- the heap

  /** The computation of heap_base in elf_load: the page-aligned end of the last segment, below the stack. */
  method HeapBase(phs: seq<Phdr>) returns (base: Option<nat>)
    ensures base.Some? ==>
              && Aligned(base.value) && 0 < base.value < USER_STACK_BOTTOM
              && (forall i :: 0 <= i < |phs| && Loads(phs[i]) ==> EndPage(phs[i]) <= base.value)
              && (exists i :: 0 <= i < |phs| && Loads(phs[i]) && EndPage(phs[i]) == base.value)
    ensures base.None? <==> (forall i :: 0 <= i < |phs| ==> !Loads(phs[i]))
                            || (exists i :: 0 <= i < |phs| && Loads(phs[i]) && EndPage(phs[i]) >= USER_STACK_BOTTOM)
  {
    var start := 0;
    var i := 0;
    while i < |phs|
      invariant 0 <= i <= |phs| && Aligned(start)
      invariant forall k :: 0 <= k < i && Loads(phs[k]) ==> EndPage(phs[k]) <= start
      invariant start == 0 ==> forall k :: 0 <= k < i ==> !Loads(phs[k])
      invariant start > 0 ==> exists k :: 0 <= k < i && Loads(phs[k]) && EndPage(phs[k]) == start
    {
      if Loads(phs[i]) {
        var end := AlignUp(phs[i].vaddr + phs[i].memsz);
        if end > start {
          start := end;
        }
      }
      i := i + 1;
    }
    if start == 0 || start >= USER_STACK_BOTTOM {
      return None;
    }
    base := Some(start);
  }
}
