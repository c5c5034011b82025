/** The page tables of one address space: the walk, and the operations on single pages and ranges.

    The tables are proved to refine `flat`, a map from page addresses to entries.
 */
module PageTables {
  import opened Options
  import opened PageTree
  import opened FrameAllocator

  /** What a caller of mmu_map_page asks for. */
  datatype Access = Access(write: bool, user: bool, nocache: bool, global: bool)

  /** The address bits that an entry keeps of a physical address. */
  function EntryAddr(phys: nat): nat {
    AlignDown(phys) % PHYS_END
  }

  ghost predicate IsPage(v: nat) {
    v < USER_END && Aligned(v)
  }

  function Lookup(flat: map<nat, Pte>, v: nat): Option<Pte> {
    if v in flat then Some(flat[v]) else None
  }

  /** The tree translates exactly as the flat map says. */
  ghost predicate Refines(m: Memory, root: nat, flat: map<nat, Pte>) {
    && (forall v :: v in flat ==> IsPage(v))
    && (forall v {:trigger Path(v)} :: IsPage(v) ==> Translate(m, root, Path(v)) == Lookup(flat, v))
  }

  /** The tables form an unshared tree that translates as the flat map says. */
  ghost predicate Sound(m: Memory, root: nat, place: map<nat, seq<nat>>, flat: map<nat, Pte>) {
    && Tree(m, root, place)
    && Connected(m, root, place)
    && Refines(m, root, flat)
  }

  lemma RefinesSame(m: Memory, m': Memory, root: nat, flat: map<nat, Pte>)
    requires Refines(m, root, flat)
    requires forall p :: UserPath(p) && |p| == 4 ==> Translate(m', root, p) == Translate(m, root, p)
    ensures Refines(m', root, flat)
  {
    forall v: nat | IsPage(v)
      ensures Translate(m', root, Path(v)) == Lookup(flat, v)
    {
      PathDetermines(v);
      assert UserPath(Path(v));
    }
  }

  /** Writing the leaf entry of page v updates the flat map at v and nowhere else. */
  lemma RefinesUpdate(m: Memory, m': Memory, root: nat, flat: map<nat, Pte>, v: nat, e: Pte)
    requires Refines(m, root, flat) && IsPage(v)
    requires forall p :: UserPath(p) && |p| == 4 ==>
               Translate(m', root, p)
               == if p != Path(v) then Translate(m, root, p) else if e.flags.present then Some(e) else None
    ensures Refines(m', root, if e.flags.present then flat[v := e] else flat - {v})
  {
    forall u: nat | IsPage(u)
      ensures Translate(m', root, Path(u)) == Lookup(if e.flags.present then flat[v := e] else flat - {v}, u)
    {
      PathDetermines(u);
      assert UserPath(Path(u));
      if Path(u) == Path(v) {
        PathInjective(u, v);
      }
    }
  }

  lemma EntryAddrOfFrame(f: nat)
    requires Aligned(f) && f < PHYS_END
    ensures EntryAddr(f) == f
  {
  }

  /** Only the root has the empty place. */
  lemma RootPlace(m: Memory, root: nat, place: map<nat, seq<nat>>, flat: map<nat, Pte>)
    requires Sound(m, root, place, flat)
    ensures forall f :: f in place ==> (place[f] == [] <==> f == root)
    ensures root in place
  {
  }

  lemma SlotThere(m: Memory, root: nat, place: map<nat, seq<nat>>, flat: map<nat, Pte>, f: nat)
    requires Sound(m, root, place, flat) && f in place
    ensures f in m && |m[f]| == ENTRIES
  {
  }

  /** Linking a fresh table keeps the tree and what it refines. */
  lemma LinkedTree(m: Memory, root: nat, place: map<nat, seq<nat>>, flat: map<nat, Pte>, f: nat, i: nat, g: nat,
                   flags: Flags)
    requires Sound(m, root, place, flat)
    requires f in place && |place[f]| < 3 && UserSlot(root, f, i) && !m[f][i].flags.present
    requires g !in place && flags.present
    ensures var m', place' := m[f := m[f][i := Pte(g, flags)]][g := ZeroTable()], place[g := place[f] + [i]];
            Sound(m', root, place', flat)
  {
    var m' := m[f := m[f][i := Pte(g, flags)]][g := ZeroTable()];
    AddTable(m, m', root, place, f, i, g, flags);
    RefinesSame(m, m', root, flat);
  }

  /** Writing the leaf entry of a page keeps the tree sound for the updated flat map. */
  lemma LeafSet(m: Memory, root: nat, place: map<nat, seq<nat>>, flat: map<nat, Pte>, leaf: nat, v: nat, e: Pte)
    requires Sound(m, root, place, flat)
    requires IsPage(v) && leaf in place && place[leaf] == Path(v)[..3]
    ensures leaf in m && |m[leaf]| == ENTRIES
    ensures Sound(m[leaf := m[leaf][Path(v)[3] := e]], root, place, if e.flags.present then flat[v := e] else flat - {v})
  {
    PathDetermines(v);
    var i := Path(v)[3];
    assert place[leaf] + [i] == Path(v);
    var m' := m[leaf := m[leaf][i := e]];
    LeafUpdate(m, m', root, place, leaf, i, e);
    RefinesUpdate(m, m', root, flat, v, e);
  }

  class MmuContext {
    const frames: Frames
    const root: nat
    const globalPages: bool
    /** The frames that hold tables, with their entries. */
    var tables: Memory
    ghost var place: map<nat, seq<nat>>
    ghost var flat: map<nat, Pte>

    ghost predicate Valid()
      reads this, frames
    {
      && frames.Valid()
      && place.Keys <= frames.managed - frames.free
      && Sound(tables, root, place, flat)
    }

    /** mmu_create_context, given the frame of its root table: the user half starts empty, the upper
        half is a copy of the kernel's. */
    constructor (frames: Frames, root: nat, kernelHalf: seq<Pte>, globalPages: bool)
      requires frames.Valid() && root in frames.managed && root !in frames.free
      requires |kernelHalf| == ENTRIES - USER_SLOTS
      ensures Valid() && this.frames == frames && this.root == root && this.globalPages == globalPages
      ensures flat == map[] && place.Keys == {root}
      ensures tables[root][USER_SLOTS..] == kernelHalf
    {
      this.frames, this.root, this.globalPages := frames, root, globalPages;
      var t := ZeroTable()[..USER_SLOTS] + kernelHalf;
      tables := map[root := t];
      place := map[root := []];
      flat := map[];
      new;
      forall v: nat | IsPage(v)
        ensures Translate(tables, root, Path(v)) == None
      {
        EmptyTranslates(tables, root, v);
      }
    }

    /** The part of get_or_create_table that clears the no-execute bit of an existing entry. */
    method ClearNoExecute(f: nat, i: nat)
      requires Valid() && f in place && |place[f]| < 3 && UserSlot(root, f, i) && tables[f][i].flags.present
      modifies this`tables
      ensures Valid()
      ensures tables == old(tables)[f := old(tables[f])[i := old(tables[f][i]).(flags := old(tables[f][i]).flags.(nx := false))]]
    {
      var entry := tables[f][i];
      var cleared := entry.(flags := entry.flags.(nx := false));
      ghost var before := tables;
      tables := tables[f := tables[f][i := cleared]];
      SameChildUpdate(before, tables, root, place, f, i, cleared);
      RefinesSame(before, tables, root, flat);
    }

    /** The part of get_or_create_table that allocates a zeroed table and links it into an absent slot. */
    method LinkNewTable(f: nat, i: nat, flags: Flags) returns (child: Option<nat>)
      requires Valid() && f in place && |place[f]| < 3 && UserSlot(root, f, i) && !tables[f][i].flags.present
      modifies this`tables, this`place, frames
      ensures Valid() && frames.managed == old(frames.managed)
      ensures child.None? ==>
                place == old(place) && tables == old(tables) && frames.free == old(frames.free)
                && old(frames.free) == {}
      ensures child.Some? ==>
                && child.value in old(frames.free) && frames.free == old(frames.free) - {child.value}
                && place == old(place)[child.value := old(place)[f] + [i]]
      ensures child.Some? ==> tables[f][i].flags == flags.(nx := false, present := true, writable := true)
    {
      hide Sound;
      SlotThere(tables, root, place, flat, f);
      var g := frames.Alloc();
      if g == 0 {
        return None;
      }
      var linked := flags.(nx := false, present := true, writable := true);
      EntryAddrOfFrame(g);
      LinkedTree(tables, root, place, flat, f, i, g, linked);
      tables := tables[f := tables[f][i := Pte(EntryAddr(g), linked)]][g := ZeroTable()];
      place := place[g := place[f] + [i]];
      child := Some(g);
    }

    /** get_or_create_table: the child of a slot, created empty if there is none. */
    method GetOrCreate(f: nat, i: nat, flags: Flags) returns (child: Option<nat>)
      requires Valid() && f in place && |place[f]| < 3 && UserSlot(root, f, i)
      modifies this`tables, this`place, frames
      ensures Valid() && frames.managed == old(frames.managed)
      ensures Grown(old(place), place, old(frames.free), frames.free)
      ensures Spent(old(frames.free), frames.free, 1)
      ensures child.Some? ==> child.value in place && place[child.value] == old(place)[f] + [i]
      ensures child.Some? ==> Linked(old(tables), tables, f, i, flags)
      ensures child.None? ==> place == old(place) && frames.free == old(frames.free) && old(frames.free) == {}
    {
      hide Sound;
      hide Frames.Valid;
      SlotThere(tables, root, place, flat, f);
      if tables[f][i].flags.present {
        ChildThere(tables, root, place, flat, f, i);
        if tables[f][i].flags.nx {
          ClearNoExecute(f, i);
        }
        return Some(tables[f][i].addr);
      }
      child := LinkNewTable(f, i, flags);
      SlotThere(tables, root, place, flat, f);
    }

    /** One level of the walk: from the table at p[..k] to the one at p[..k + 1]. */
    method Down(f: nat, ghost k: nat, i: nat, flags: Flags, ghost p: seq<nat>) returns (child: Option<nat>)
      requires Valid() && f in place && k < 3 && |p| == 4 && UserPath(p) && place[f] == p[..k] && i == p[k]
      modifies this`tables, this`place, frames
      ensures Valid() && frames.managed == old(frames.managed)
      ensures Grown(old(place), place, old(frames.free), frames.free) && Spent(old(frames.free), frames.free, 1)
      ensures child.Some? ==> child.value in place && place[child.value] == p[..k + 1]
      ensures child.None? ==> frames.free == {}
    {
      hide Sound;
      hide Grown;
      hide Frames.Valid;
      RootPlace(tables, root, place, flat);
      child := GetOrCreate(f, i, flags);
      assert p[..k] + [i] == p[..k + 1];
    }

    /** walk_page_tables with create: the leaf table of an address, with every table on the way there. */
    method WalkCreate(v: nat, flags: Flags) returns (leaf: Option<nat>)
      requires Valid() && v < USER_END
      modifies this`tables, this`place, frames
      ensures Valid() && frames.managed == old(frames.managed)
      ensures Grown(old(place), place, old(frames.free), frames.free) && Spent(old(frames.free), frames.free, 3)
      ensures leaf.Some? ==> leaf.value in place && place[leaf.value] == Path(v)[..3]
      ensures leaf.None? ==> frames.free == {}
    {
      hide Path;
      hide Sound;
      hide Grown;
      hide Frames.Valid;
      PathOfPage(v);
      RootPlace(tables, root, place, flat);
      var p := Path(v);
      leaf := Down(root, 0, p[0], flags, p);
      if leaf.Some? {
        ghost var place1, free1 := place, frames.free;
        leaf := Down(leaf.value, 1, p[1], flags, p);
        GrownTrans(old(place), place1, place, old(frames.free), free1, frames.free);
        SpentTrans(old(frames.free), free1, frames.free, 1, 1);
        if leaf.Some? {
          ghost var place2, free2 := place, frames.free;
          leaf := Down(leaf.value, 2, p[2], flags, p);
          GrownTrans(old(place), place2, place, old(frames.free), free2, frames.free);
          SpentTrans(old(frames.free), free2, frames.free, 2, 1);
        }
      }
    }

    /** walk_page_tables without create: the leaf table of an address if the tables lead to one. */
    method Walk(v: nat) returns (leaf: Option<nat>)
      requires Valid() && v < USER_END
      ensures leaf == Descend(tables, root, Path(v)[..3])
      ensures leaf.Some? ==> leaf.value in place && place[leaf.value] == Path(v)[..3]
    {
      PathDetermines(v);
      var p := Path(v);
      WalkUnfolds(tables, root, p);
      DescendPlace(tables, root, place, p[..1]);
      DescendPlace(tables, root, place, p[..2]);
      DescendPlace(tables, root, place, p[..3]);
      if !tables[root][p[0]].flags.present {
        return None;
      }
      var pdpt := tables[root][p[0]].addr;
      if !tables[pdpt][p[1]].flags.present {
        return None;
      }
      var pd := tables[pdpt][p[1]].addr;
      if !tables[pd][p[2]].flags.present {
        return None;
      }
      leaf := Some(tables[pd][p[2]].addr);
    }

    /** Store an entry into the leaf slot of page v: the flat map changes at v and nowhere else. */
    method SetLeaf(leaf: nat, v: nat, e: Pte)
      requires Valid() && IsPage(v) && leaf in place && place[leaf] == Path(v)[..3]
      modifies this`tables, this`flat
      ensures Valid() && flat == if e.flags.present then old(flat)[v := e] else old(flat) - {v}
    {
      hide Path;
      hide Sound;
      hide Frames.Valid;
      LeafSet(tables, root, place, flat, leaf, v, e);
      tables := tables[leaf := tables[leaf][Path(v)[3] := e]];
      flat := if e.flags.present then flat[v := e] else flat - {v};
    }

    /** The present entry of a page. */
    method EntryOf(v: nat) returns (e: Option<Pte>, leaf: Option<nat>)
      requires Valid() && v < USER_END
      ensures e == Lookup(flat, AlignDown(v)) && (e.Some? ==> e.value.flags.present)
      ensures e.Some? ==> leaf.Some? && leaf.value in place && place[leaf.value] == Path(v)[..3]
    {
      leaf := Walk(v);
      PathOfPage(v);
      assert Translate(tables, root, Path(AlignDown(v))) == Lookup(flat, AlignDown(v));
      if leaf.None? || !tables[leaf.value][Path(v)[3]].flags.present {
        return None, leaf;
      }
      e := Some(tables[leaf.value][Path(v)[3]]);
    }

    /** mmu_map_page: the page of v is mapped to the frame of phys, whatever it was mapped to before. */
    method MapPage(v: nat, phys: nat, access: Access) returns (ok: bool)
      requires Valid() && v < USER_END
      modifies this`tables, this`place, this`flat, frames
      ensures Valid() && frames.managed == old(frames.managed)
      ensures Grown(old(place), place, old(frames.free), frames.free) && Spent(old(frames.free), frames.free, 3)
      ensures ok ==> flat == old(flat)[AlignDown(v) := Pte(EntryAddr(phys), ArchFlags(access, globalPages))]
      ensures ok ==> Grants(access, globalPages, flat[AlignDown(v)].flags)
      ensures ok && phys < PHYS_END ==> flat[AlignDown(v)].addr <= phys < flat[AlignDown(v)].addr + PageTree.PAGE_SIZE
      ensures !ok ==> flat == old(flat) && frames.free == {}
    {
      hide Sound;
      var page := AlignDown(v);
      var leaf := WalkCreate(page, ArchFlags(access, globalPages));
      if leaf.None? {
        return false;
      }
      SetLeaf(leaf.value, page, Pte(EntryAddr(phys), ArchFlags(access, globalPages)));
      ok := true;
    }

    /** mmu_unmap_page: remove the translation of one page; it fails if there is none. */
    method UnmapPage(v: nat) returns (ok: bool)
      requires Valid() && v < USER_END
      modifies this`tables, this`flat
      ensures Valid() && flat == old(flat) - {AlignDown(v)}
      ensures ok <==> AlignDown(v) in old(flat)
    {
      hide Sound;
      var page := AlignDown(v);
      var e, leaf := EntryOf(page);
      if e.None? {
        assert flat - {page} == flat;
        return false;
      }
      SetLeaf(leaf.value, page, ABSENT);
      ok := true;
    }

    /** mmu_virt_to_phys: the frame of the page plus the offset in the page, or 0. */
    method VirtToPhys(v: nat) returns (phys: nat)
      requires Valid() && v < USER_END
      ensures phys == if AlignDown(v) in flat then flat[AlignDown(v)].addr + v % PageTree.PAGE_SIZE else 0
    {
      var e, leaf := EntryOf(v);
      phys := if e.None? then 0 else e.value.addr + v % PageTree.PAGE_SIZE;
    }

    method IsMapped(v: nat) returns (mapped: bool)
      requires Valid() && v < USER_END
      ensures mapped <==> AlignDown(v) in flat
    {
      var e, leaf := EntryOf(v);
      mapped := e.Some?;
    }

    /** mmu_remap_page: move a translation; when no table can be had for the new place the translation is
        gone from the old one all the same. */
    method RemapPage(from: nat, to: nat) returns (ok: bool)
      requires Valid() && from < USER_END && to < USER_END
      modifies this`tables, this`place, this`flat, frames
      ensures Valid() && frames.managed == old(frames.managed)
      ensures Grown(old(place), place, old(frames.free), frames.free)
      ensures AlignDown(from) !in old(flat) ==> !ok && flat == old(flat)
      ensures AlignDown(from) in old(flat) ==>
                flat == var moved := old(flat) - {AlignDown(from)};
                        if ok then moved[AlignDown(to) := old(flat)[AlignDown(from)]] else moved
      ensures AlignDown(from) in old(flat) && !ok ==> frames.free == {}
    {
      hide Sound;
      var e, leaf := EntryOf(from);
      if e.None? {
        return false;
      }
      PathOfPage(from);
      SetLeaf(leaf.value, AlignDown(from), ABSENT);
      var target := WalkCreate(AlignDown(to), e.value.flags);
      if target.None? {
        return false;
      }
      SetLeaf(target.value, AlignDown(to), e.value);
      ok := true;
    }

    /** mmu_unmap_range: no page of the range is translated any more, and every other page is as before. */
    method UnmapRange(start: nat, size: nat)
      requires Valid() && Aligned(start) && start + AlignUp(size) <= USER_END
      modifies this`tables, this`flat
      ensures Valid() && flat == old(flat) - Pages(start, start + AlignUp(size))
    {
      hide Sound;
      var count := PageCount(size);
      var i, v := 0, start;
      PagesEmpty(start);
      while i < count
        invariant 0 <= i <= count && v == start + i * PageTree.PAGE_SIZE && Aligned(v)
        invariant Valid() && flat == old(flat) - Pages(start, v)
      {
        PagesExtend(start, v);
        var ok := UnmapPage(v);
        i, v := i + 1, v + PageTree.PAGE_SIZE;
      }
    }

    /** The body of the loop of mmu_copy_range. */
    method CopyPage(src: MmuContext, v: nat, cow: bool) returns (ok: bool)
      requires Valid() && src.Valid() && src != this && src.frames == frames && IsPage(v)
      modifies this`tables, this`place, this`flat, frames
      ensures Valid() && src.Valid() && frames.managed == old(frames.managed)
      ensures Grown(old(place), place, old(frames.free), frames.free)
      ensures ok ==> flat == if v in src.flat then old(flat)[v := SharedEntry(src.flat[v], cow)] else old(flat)
      ensures !ok ==> frames.free == {} && flat == old(flat) && v in src.flat
    {
      hide Sound;
      hide Frames.Valid;
      PageOfPage(v);
      var e, there := src.EntryOf(v);
      if e.None? {
        return true;
      }
      var shared := SharedEntry(e.value, cow);
      var leaf := WalkCreate(v, shared.flags);
      if leaf.None? {
        return false;
      }
      SetLeaf(leaf.value, v, shared);
      ok := true;
    }

    /** mmu_copy_range: the pages of the range that the other context translates are translated to the same
        frames, not writable and marked if copy-on-write is asked for. */
    method CopyRange(src: MmuContext, start: nat, size: nat, cow: bool) returns (ok: bool)
      requires Valid() && src.Valid() && src != this && src.frames == frames
      requires Aligned(start) && start + AlignUp(size) <= USER_END
      modifies this`tables, this`place, this`flat, frames
      ensures Valid() && src.Valid() && frames.managed == old(frames.managed) && frames.free <= old(frames.free)
      ensures ok ==> Overlaid(old(flat), flat, src.flat, start, start + AlignUp(size), cow)
      ensures Grown(old(place), place, old(frames.free), frames.free)
      ensures !ok ==> frames.free == {}
                      && OverlaidPrefix(old(flat), flat, src.flat, start, start + AlignUp(size), cow)
    {
      hide Sound;
      hide Frames.Valid;
      var count := PageCount(size);
      var i, v := 0, start;
      while i < count
        invariant 0 <= i <= count && v == start + i * PageTree.PAGE_SIZE && Aligned(v)
        invariant Valid() && src.Valid() && frames.managed == old(frames.managed) && frames.free <= old(frames.free)
        invariant Overlaid(old(flat), flat, src.flat, start, v, cow)
        invariant Grown(old(place), place, old(frames.free), frames.free)
      {
        ghost var flat1, place1, free1 := flat, place, frames.free;
        ok := CopyPage(src, v, cow);
        GrownTrans(old(place), place1, place, old(frames.free), free1, frames.free);
        if !ok {
          assert start <= v < start + AlignUp(size);
          return false;
        }
        OnlyPages(src.tables, src.root, src.place, src.flat);
        OverlaidExtend(old(flat), flat1, flat, src.flat, start, v, cow);
        i, v := i + 1, v + PageTree.PAGE_SIZE;
      }
      ok := true;
    }
  }

  /** The entry that mmu_copy_range makes of an entry. */
  function SharedEntry(e: Pte, cow: bool): Pte {
    if cow then e.(flags := e.flags.(writable := false, cow := true)) else e
  }

  /** The pages of [from, to) that `src` translates are shared, the others are as before. */
  ghost predicate Overlaid(before: map<nat, Pte>, after: map<nat, Pte>, src: map<nat, Pte>, from: nat, to: nat,
                           cow: bool) {
    forall v: nat ::
      Lookup(after, v) == if from <= v < to && v in src then Some(SharedEntry(src[v], cow)) else Lookup(before, v)
  }

  /** Only the pages before one that `src` translates are shared, and the range goes on there. */
  ghost predicate OverlaidPrefix(before: map<nat, Pte>, after: map<nat, Pte>, src: map<nat, Pte>, from: nat, to: nat,
                                 cow: bool) {
    exists v: nat :: from <= v < to && v in src && Overlaid(before, after, src, from, v, cow)
  }

  lemma OverlaidExtend(before: map<nat, Pte>, mid: map<nat, Pte>, after: map<nat, Pte>, src: map<nat, Pte>,
                       from: nat, v: nat, cow: bool)
    requires Overlaid(before, mid, src, from, v, cow) && from <= v && Aligned(v)
    requires after == if v in src then mid[v := SharedEntry(src[v], cow)] else mid
    requires forall u :: u in src ==> IsPage(u)
    ensures Overlaid(before, after, src, from, v + PageTree.PAGE_SIZE, cow)
  {
    forall u: nat
      ensures Lookup(after, u)
              == if from <= u < v + PageTree.PAGE_SIZE
              && u in src then Some(SharedEntry(src[u], cow)) else Lookup(before, u)
    {
      assert Lookup(mid, u) == if from <= u < v && u in src then Some(SharedEntry(src[u], cow)) else Lookup(before, u);
      assert u in src ==> IsPage(u);
      assert v < u < v + PageTree.PAGE_SIZE ==> !Aligned(u);
    }
  }

  lemma OnlyPages(m: Memory, root: nat, place: map<nat, seq<nat>>, flat: map<nat, Pte>)
    requires Sound(m, root, place, flat)
    ensures forall v :: v in flat ==> IsPage(v)
  {
  }

  lemma PageOfPage(v: nat)
    requires IsPage(v)
    ensures AlignDown(v) == v
  {
  }

  function PageCount(size: nat): (n: nat)
    ensures n * PageTree.PAGE_SIZE == AlignUp(size)
  {
    (size + PageTree.PAGE_SIZE - 1) / PageTree.PAGE_SIZE
  }

  /** A present entry allows exactly what was asked for. No entry forbids execution. */
  predicate Grants(access: Access, globalPages: bool, flags: Flags) {
    && flags.present && !flags.cow && !flags.nx
    && (flags.writable <==> access.write)
    && (flags.user <==> access.user)
    && (flags.nocache <==> access.nocache)
    && (flags.global <==> access.global && globalPages)
  }

  /** The entry bits for a request; global pages only where the processor has them. */
  function ArchFlags(access: Access, globalPages: bool): Flags {
    Flags(true, access.write, access.user, access.nocache, access.global && globalPages, false, false)
  }

  /** The page addresses in [from, to). */
  ghost function Pages(from: nat, to: nat): set<nat> {
    set v: nat | from <= v < to && Aligned(v)
  }

  lemma PagesEmpty(v: nat)
    ensures Pages(v, v) == {}
  {
  }

  lemma PagesExtend(from: nat, to: nat)
    requires from <= to && Aligned(to)
    ensures Pages(from, to + PageTree.PAGE_SIZE) == Pages(from, to) + {to}
  {
    forall v: nat | to <= v < to + PageTree.PAGE_SIZE && Aligned(v)
      ensures v == to
    {
    }
  }

  /** An address and its page have the same indices. */
  lemma PathOfPage(v: nat)
    requires v < USER_END
    ensures Path(AlignDown(v)) == Path(v) && IsPage(AlignDown(v)) && UserPath(Path(v))
  {
    PathDetermines(v);
    var n := v / 0x1000;
    assert AlignDown(v) == n * 0x1000;
    assert AlignDown(v) / 0x20_0000 == n / 512 == v / 0x20_0000;
    assert AlignDown(v) / 0x4000_0000 == n / 512 / 512 == v / 0x4000_0000;
    assert AlignDown(v) / 0x80_0000_0000 == n / 512 / 512 / 512 == v / 0x80_0000_0000;
  }

  lemma WalkUnfolds(m: Memory, root: nat, p: seq<nat>)
    requires |p| == 4
    ensures Descend(m, root, p[..1]) == Child(m, root, p[0])
    ensures Descend(m, root, p[..2])
            == var d := Descend(m, root, p[..1]); if d.None? then None else Child(m, d.value, p[1])
    ensures Descend(m, root, p[..3])
            == var d := Descend(m, root, p[..2]); if d.None? then None else Child(m, d.value, p[2])
  {
    assert p[..1][..0] == [] && p[..2][..1] == p[..1] && p[..3][..2] == p[..2];
  }

  /** At most n frames fewer are free. */
  ghost predicate Spent(free: set<nat>, free': set<nat>, n: nat) {
    |free'| + n >= |free|
  }

  lemma SpentOne(free: set<nat>, f: nat)
    requires f in free
    ensures Spent(free, free - {f}, 1) && Spent(free, free, 0)
  {
  }

  lemma SpentTrans(free: set<nat>, free': set<nat>, free'': set<nat>, m: nat, n: nat)
    requires Spent(free, free', m) && Spent(free', free'', n)
    ensures Spent(free, free'', m + n)
  {
  }

  /** A frame that comes back is not spent. */
  lemma SpentLess(free: set<nat>, free': set<nat>, f: nat, n: nat)
    requires Spent(free, free', n) && f !in free'
    ensures Spent(free, free' + {f}, n)
  {
  }

  /** The link in slot i of table f does not forbid execution; a new one is writable, and open to the program exactly if
      that was asked for. */
  ghost predicate Linked(before: Memory, after: Memory, f: nat, i: nat, flags: Flags) {
    && f in before && i < |before[f]| && f in after && i < |after[f]|
    && var was, link := before[f][i], after[f][i];
    && link.flags.present && !link.flags.nx
    && (was.flags.present ==> link == was.(flags := was.flags.(nx := false)))
    && (!was.flags.present ==> link.flags.writable && (link.flags.user <==> flags.user))
  }

  lemma ChildThere(m: Memory, root: nat, place: map<nat, seq<nat>>, flat: map<nat, Pte>, f: nat, i: nat)
    requires Sound(m, root, place, flat) && f in place && |place[f]| < 3 && UserSlot(root, f, i)
    requires f in m && i < |m[f]| && m[f][i].flags.present
    ensures m[f][i].addr in place && place[m[f][i].addr] == place[f] + [i]
  {
  }

  /** Tables were only added, each in a frame that was free. */
  ghost predicate Grown(place: map<nat, seq<nat>>, place': map<nat, seq<nat>>, free: set<nat>, free': set<nat>) {
    && place.Keys <= place'.Keys
    && (forall g :: g in place ==> place'[g] == place[g])
    && free' <= free
    && place'.Keys - place.Keys == free - free'
  }

  lemma GrownTrans(p0: map<nat, seq<nat>>, p1: map<nat, seq<nat>>, p2: map<nat, seq<nat>>,
                   f0: set<nat>, f1: set<nat>, f2: set<nat>)
    requires Grown(p0, p1, f0, f1) && Grown(p1, p2, f1, f2)
    requires f0 !! p0.Keys && f1 !! p1.Keys
    ensures Grown(p0, p2, f0, f2)
  {
    assert p2.Keys - p0.Keys == (p2.Keys - p1.Keys) + (p1.Keys - p0.Keys);
  }

  lemma EmptyTranslates(m: Memory, root: nat, v: nat)
    requires IsPage(v) && root in m && |m[root]| == ENTRIES
    requires forall i :: 0 <= i < USER_SLOTS ==> m[root][i] == ABSENT
    ensures Translate(m, root, Path(v)) == None
  {
    PathDetermines(v);
    var p := Path(v);
    assert p[..3][..2] == p[..2] && p[..2][..1] == p[..1] && p[..1][..0] == [];
    assert Descend(m, root, p[..1]) == None;
    assert Descend(m, root, p[..2]) == None;
  }
}
