/** The slab allocator: caches of equal-sized objects in 16 KB slabs, kept on three lists. */
module Slabs {
  import opened Options
  import opened Arithmetic

  const PAGE_SIZE: nat := 4096
  const SLAB_SIZE: nat := 4 * PAGE_SIZE
  const SLAB_MAX_SIZE: nat := 512
  const SLAB_MIN_SIZE: nat := 16
  const POINTER_SIZE: nat := 8

  /** A slab: its chain of free objects and its two counters. It is named by the address of its memory. */
  datatype Slab = Slab(free: seq<nat>, numFree: nat, numTotal: nat)

  /** ALIGN_UP for an alignment that is a power of two. */
  function RoundUp(size: nat, align: nat): (r: nat)
    requires align > 0
    ensures size <= r < size + align && (size > 0 ==> r > 0)
  {
    Parts(size + align - 1, align);
    (size + align - 1) / align * align
  }

  lemma RoundUpAligned(size: nat, align: nat)
    requires align > 0
    ensures RoundUp(size, align) % align == 0
  {
    ModOfMultiple((size + align - 1) / align, align);
  }

  predicate NoDuplicates(s: seq<nat>) {
    forall i, j :: 0 <= i < j < |s| ==> s[i] != s[j]
  }

  // ---------------------------------------------------------------- objects of a slab

  /** Address a is object i of the slab at mem. */
  ghost predicate ObjectAt(mem: nat, stride: nat, i: nat, a: nat) {
    a == mem + i * stride
  }

  ghost predicate IsObject(mem: nat, stride: nat, total: nat, a: nat) {
    exists i: nat :: i < total && ObjectAt(mem, stride, i, a)
  }

  /** An object lies inside its slab. */
  lemma ObjectInside(mem: nat, stride: nat, total: nat, a: nat)
    requires IsObject(mem, stride, total, a) && total * stride <= SLAB_SIZE
    ensures mem <= a && a + stride <= mem + SLAB_SIZE
  {
    var i: nat :| i < total && ObjectAt(mem, stride, i, a);
    Distribute(i, 1, stride);
    Monotone(i + 1, total, stride);
  }

  /** Two objects of a slab do not overlap. */
  lemma ObjectsApart(mem: nat, stride: nat, total: nat, a: nat, b: nat)
    requires IsObject(mem, stride, total, a) && IsObject(mem, stride, total, b) && a != b
    ensures a + stride <= b || b + stride <= a
  {
    var i: nat :| i < total && ObjectAt(mem, stride, i, a);
    var j: nat :| j < total && ObjectAt(mem, stride, j, b);
    Distribute(i, 1, stride);
    Distribute(j, 1, stride);
    Monotone(i + 1, j, stride);
    Monotone(j + 1, i, stride);
  }

  lemma TotalFits(stride: nat)
    requires stride > 0
    ensures SLAB_SIZE / stride * stride <= SLAB_SIZE
    ensures SLAB_SIZE / stride == 0 <==> stride > SLAB_SIZE
  {
    Parts(SLAB_SIZE, stride);
    if stride <= SLAB_SIZE {
      QuotientAtLeast(SLAB_SIZE, 1, stride);
    }
  }

  /** For the sizes a cache accepts, an object fits into a slab exactly if the alignment does. */
  lemma StrideTooBig(size: nat, align: nat)
    requires SLAB_MIN_SIZE <= size <= SLAB_MAX_SIZE && align > 0
    ensures RoundUp(size, align) > SLAB_SIZE <==> align > SLAB_SIZE
  {
    var q := (size + align - 1) / align;
    Parts(size + align - 1, align);
    if align >= size {
      QuotientAtLeast(size + align - 1, 1, align);
      assert q < 2 by {
        Monotone(2, q, align);
      }
      assert q == 1;
    }
  }

  /** All objects of a slab are aligned exactly if its memory is. */
  lemma ObjectsAligned(mem: nat, stride: nat, total: nat, align: nat)
    requires align > 0 && stride % align == 0 && total > 0
    ensures mem % align == 0 <==> forall a: nat :: IsObject(mem, stride, total, a) ==> a % align == 0
  {
    assert ObjectAt(mem, stride, 0, mem);
    assert IsObject(mem, stride, total, mem);
    forall a: nat | mem % align == 0 && IsObject(mem, stride, total, a)
      ensures a % align == 0
    {
      var i: nat :| i < total && ObjectAt(mem, stride, i, a);
      SumAligned(mem, i, stride, align);
    }
  }

  lemma SumAligned(mem: nat, i: nat, stride: nat, align: nat)
    requires align > 0 && stride % align == 0 && mem % align == 0
    ensures (mem + i * stride) % align == 0
  {
    var p, q := mem / align, stride / align;
    Parts(mem, align);
    Parts(stride, align);
    assert i * stride == i * (q * align) == (i * q) * align;
    Distribute(p, i * q, align);
    ModOfMultiple(p + i * q, align);
  }

  /** Page alignment of the memory is enough exactly for alignments that divide a page. */
  lemma PageAlignmentSuffices(align: nat)
    requires align > 0
    ensures PAGE_SIZE % align == 0 <==> forall mem: nat :: mem % PAGE_SIZE == 0 ==> mem % align == 0
  {
    if PAGE_SIZE % align == 0 {
      forall mem: nat | mem % PAGE_SIZE == 0
        ensures mem % align == 0
      {
        Parts(mem, PAGE_SIZE);
        SumAligned(0, mem / PAGE_SIZE, PAGE_SIZE, align);
      }
    }
  }

  // ---------------------------------------------------------------- counting objects

  ghost function Objects(mem: nat, stride: nat, n: nat): set<nat> {
    set i: nat | i < n :: mem + i * stride
  }

  lemma {:induction false} ObjectsCount(mem: nat, stride: nat, n: nat)
    ensures |Objects(mem, stride, n)| <= n
  {
    if n > 0 {
      ObjectsCount(mem, stride, n - 1);
      assert Objects(mem, stride, n) == Objects(mem, stride, n - 1) + {mem + (n - 1) * stride};
    } else {
      assert Objects(mem, stride, 0) == {};
    }
  }

  lemma {:induction false} SubsetCount(a: set<nat>, b: set<nat>)
    requires a <= b
    ensures |a| <= |b|
  {
    if a != {} {
      var x :| x in a;
      SubsetCount(a - {x}, b - {x});
    }
  }

  ghost function Elements(s: seq<nat>): set<nat> {
    set x | x in s
  }

  lemma {:induction false} DistinctCount(s: seq<nat>)
    requires NoDuplicates(s)
    ensures |Elements(s)| == |s|
  {
    if s != [] {
      var last := s[|s| - 1];
      var rest := s[..|s| - 1];
      DistinctCount(rest);
      assert last !in rest;
      assert s == rest + [last];
      assert Elements(s) == Elements(rest) + {last};
    } else {
      assert Elements(s) == {};
    }
  }

  lemma ObjectIn(mem: nat, stride: nat, total: nat, a: nat)
    requires IsObject(mem, stride, total, a)
    ensures a in Objects(mem, stride, total)
  {
    var i: nat :| i < total && ObjectAt(mem, stride, i, a);
  }

  lemma ChainCount(mem: nat, stride: nat, total: nat, s: seq<nat>)
    requires NoDuplicates(s) && forall a :: a in s ==> IsObject(mem, stride, total, a)
    ensures |s| <= total
  {
    hide Objects;
    hide IsObject;
    DistinctCount(s);
    ObjectsCount(mem, stride, total);
    forall a | a in s
      ensures a in Objects(mem, stride, total)
    {
      ObjectIn(mem, stride, total, a);
    }
    SubsetCount(Elements(s), Objects(mem, stride, total));
  }

  /** A chain that misses an object is not complete. */
  lemma ChainMisses(mem: nat, stride: nat, total: nat, s: seq<nat>, a: nat)
    requires NoDuplicates(s) && (forall x :: x in s ==> IsObject(mem, stride, total, x))
    requires IsObject(mem, stride, total, a) && a !in s
    ensures |s| < total
  {
    ChainCount(mem, stride, total, [a] + s);
  }

  /** A list without its element at position p. */
  function Unlink(s: seq<nat>, p: nat): seq<nat>
    requires p < |s|
  {
    s[..p] + s[p + 1..]
  }

  lemma UnlinkKeeps(s: seq<nat>, p: nat)
    requires NoDuplicates(s) && p < |s|
    ensures NoDuplicates(Unlink(s, p)) && s[p] !in Unlink(s, p)
    ensures forall x :: x in s <==> x in Unlink(s, p) || x == s[p]
  {
    var r := Unlink(s, p);
    assert forall k :: 0 <= k < |r| ==> r[k] == s[if k < p then k else k + 1];
    forall x | x in s && x != s[p]
      ensures x in r
    {
      var k :| 0 <= k < |s| && s[k] == x;
      assert r[if k < p then k else k - 1] == x;
    }
  }

  lemma PushKeeps(s: seq<nat>, x: nat)
    requires NoDuplicates(s) && x !in s
    ensures NoDuplicates([x] + s) && forall y :: y in [x] + s <==> y == x || y in s
  {
  }

  // ---------------------------------------------------------------- the state of a cache

  ghost predicate SlabOk(mem: nat, s: Slab, stride: nat, total: nat) {
    && mem > 0 && mem % PAGE_SIZE == 0
    && s.numTotal == total && s.numFree == |s.free| && NoDuplicates(s.free)
    && (forall a :: a in s.free ==> IsObject(mem, stride, total, a))
  }

  ghost predicate RegionsApart(slabs: map<nat, Slab>) {
    forall m, n :: m in slabs && n in slabs && m != n ==> m + SLAB_SIZE <= n || n + SLAB_SIZE <= m
  }

  /** Every slab is on exactly one list, once. */
  ghost predicate OnOneList(keys: set<nat>, a: seq<nat>, b: seq<nat>, c: seq<nat>) {
    && NoDuplicates(a) && NoDuplicates(b) && NoDuplicates(c)
    && (forall m :: m in a ==> m in keys && m !in b && m !in c)
    && (forall m :: m in b ==> m in keys && m !in a && m !in c)
    && (forall m :: m in c ==> m in keys && m !in a && m !in b)
    && (forall m :: m in keys ==> m in a || m in b || m in c)
  }

  /** Moving a slab from one list to the front of another. */
  lemma MoveSlab(keys: set<nat>, a: seq<nat>, b: seq<nat>, c: seq<nat>, p: nat)
    requires OnOneList(keys, a, b, c) && p < |a|
    ensures OnOneList(keys, Unlink(a, p), [a[p]] + b, c)
  {
    UnlinkKeeps(a, p);
    assert a[p] in a;
    PushKeeps(b, a[p]);
  }

  lemma Reorder(keys: set<nat>, a: seq<nat>, b: seq<nat>, c: seq<nat>)
    requires OnOneList(keys, a, b, c)
    ensures OnOneList(keys, b, a, c) && OnOneList(keys, a, c, b)
  {
  }

  /** Partial slabs have something to give, full ones have given something away, empty ones nothing. */
  ghost predicate Levels(slabs: map<nat, Slab>, partial: seq<nat>, full: seq<nat>, empty: seq<nat>, total: nat) {
    && (forall m :: m in partial && m in slabs ==> slabs[m].numFree > 0 || total == 0)
    && (forall m :: m in full && m in slabs ==> slabs[m].numFree < total)
    && (forall m :: m in empty && m in slabs ==> slabs[m].numFree == total > 0)
  }

  /** The object at a is handed out by the slab at m. */
  ghost predicate LiveIn(slabs: map<nat, Slab>, stride: nat, total: nat, m: nat, a: nat) {
    m in slabs && IsObject(m, stride, total, a) && a !in slabs[m].free
  }

  ghost predicate IsLive(slabs: map<nat, Slab>, stride: nat, total: nat, a: nat) {
    exists m: nat :: LiveIn(slabs, stride, total, m, a)
  }

  /** The slab whose memory contains an address. */
  ghost predicate InSlab(slabs: map<nat, Slab>, m: nat, a: nat) {
    m in slabs && m <= a < m + SLAB_SIZE
  }

  ghost predicate CacheOk(slabs: map<nat, Slab>, partial: seq<nat>, full: seq<nat>, empty: seq<nat>, stride: nat,
                          total: nat) {
    && stride > 0 && total == SLAB_SIZE / stride
    && (forall m :: m in slabs ==> SlabOk(m, slabs[m], stride, total))
    && RegionsApart(slabs)
    && OnOneList(slabs.Keys, partial, full, empty)
    && Levels(slabs, partial, full, empty, total)
  }

  /** Live objects do not overlap. */
  lemma LiveApart(slabs: map<nat, Slab>, partial: seq<nat>, full: seq<nat>, empty: seq<nat>, stride: nat, total: nat,
                  a: nat, b: nat)
    requires CacheOk(slabs, partial, full, empty, stride, total)
    requires IsLive(slabs, stride, total, a) && IsLive(slabs, stride, total, b) && a != b
    ensures a + stride <= b || b + stride <= a
  {
    var m :| LiveIn(slabs, stride, total, m, a);
    var n :| LiveIn(slabs, stride, total, n, b);
    TotalFits(stride);
    ObjectInside(m, stride, total, a);
    ObjectInside(n, stride, total, b);
    if m == n {
      ObjectsApart(m, stride, total, a, b);
    }
  }

  /** Full slabs hold no free object. */
  ghost predicate FullIsFull(slabs: map<nat, Slab>, full: seq<nat>) {
    forall m :: m in full && m in slabs ==> slabs[m].numFree == 0
  }

  // ---------------------------------------------------------------- what one change does

  /** Only one slab can own an object. */
  lemma OneOwner(slabs: map<nat, Slab>, stride: nat, total: nat, m: nat, n: nat, a: nat)
    requires RegionsApart(slabs) && m in slabs && n in slabs && stride > 0 && total == SLAB_SIZE / stride
    requires IsObject(m, stride, total, a) && n <= a < n + SLAB_SIZE
    ensures m == n
  {
    TotalFits(stride);
    ObjectInside(m, stride, total, a);
  }

  /** Taking the first object of a chain makes it live. */
  lemma PopLive(slabs: map<nat, Slab>, stride: nat, total: nat, m: nat, slab: Slab)
    requires m in slabs && slabs[m].free != [] && SlabOk(m, slabs[m], stride, total)
    requires RegionsApart(slabs) && stride > 0 && total == SLAB_SIZE / stride
    requires slab.free == slabs[m].free[1..]
    ensures var obj := slabs[m].free[0];
            && !IsLive(slabs, stride, total, obj)
            && forall a: nat :: IsLive(slabs[m := slab], stride, total, a) <==>
                 IsLive(slabs, stride, total, a) || a == obj
  {
    hide IsObject;
    var slabs' := slabs[m := slab];
    var obj := slabs[m].free[0];
    assert obj in slabs[m].free && obj !in slab.free;
    assert forall x :: x in slabs[m].free <==> x == obj || x in slab.free;
    TotalFits(stride);
    forall n | n in slabs && IsObject(n, stride, total, obj)
      ensures n == m
    {
      ObjectInside(n, stride, total, obj);
      OneOwner(slabs, stride, total, m, n, obj);
    }
    forall a: nat
      ensures IsLive(slabs', stride, total, a) <==> IsLive(slabs, stride, total, a) || a == obj
    {
      if a == obj {
        assert LiveIn(slabs', stride, total, m, a);
      }
      if n :| LiveIn(slabs, stride, total, n, a) {
        assert LiveIn(slabs', stride, total, n, a);
      }
      if n :| LiveIn(slabs', stride, total, n, a) {
        assert a != obj ==> LiveIn(slabs, stride, total, n, a);
      }
    }
  }

  /** Putting a live object back on the chain of its slab ends its life. */
  lemma PushLive(slabs: map<nat, Slab>, stride: nat, total: nat, m: nat, obj: nat, slab: Slab)
    requires LiveIn(slabs, stride, total, m, obj) && slab.free == [obj] + slabs[m].free
    requires RegionsApart(slabs) && stride > 0 && total == SLAB_SIZE / stride
    ensures forall a: nat :: IsLive(slabs[m := slab], stride, total, a) <==> IsLive(slabs, stride, total, a) && a != obj
  {
    hide IsObject;
    var slabs' := slabs[m := slab];
    assert forall x :: x in slab.free <==> x == obj || x in slabs[m].free;
    TotalFits(stride);
    forall n | n in slabs && IsObject(n, stride, total, obj)
      ensures n == m
    {
      ObjectInside(n, stride, total, obj);
      OneOwner(slabs, stride, total, m, n, obj);
    }
    forall a: nat
      ensures IsLive(slabs', stride, total, a) <==> IsLive(slabs, stride, total, a) && a != obj
    {
      if n :| LiveIn(slabs, stride, total, n, a) {
        assert a != obj ==> LiveIn(slabs', stride, total, n, a);
      }
      if n :| LiveIn(slabs', stride, total, n, a) {
        assert LiveIn(slabs, stride, total, n, a);
      }
    }
  }

  lemma AddLive(slabs: map<nat, Slab>, stride: nat, total: nat, m: nat, slab: Slab)
    requires m !in slabs && forall a: nat :: IsObject(m, stride, total, a) ==> a in slab.free
    ensures forall a: nat :: IsLive(slabs[m := slab], stride, total, a) <==> IsLive(slabs, stride, total, a)
  {
    hide IsObject;
    var slabs' := slabs[m := slab];
    forall a: nat
      ensures IsLive(slabs', stride, total, a) <==> IsLive(slabs, stride, total, a)
    {
      if n :| LiveIn(slabs, stride, total, n, a) {
        assert LiveIn(slabs', stride, total, n, a);
      }
      if n :| LiveIn(slabs', stride, total, n, a) {
        assert LiveIn(slabs, stride, total, n, a);
      }
    }
  }

  /** A slab with a live object is on the full or on the partial list. */
  lemma LiveListed(slabs: map<nat, Slab>, partial: seq<nat>, full: seq<nat>, empty: seq<nat>, stride: nat,
                   total: nat, m: nat, a: nat)
    requires CacheOk(slabs, partial, full, empty, stride, total) && LiveIn(slabs, stride, total, m, a)
    ensures m in full || m in partial
    ensures slabs[m].numFree < total
    ensures InSlab(slabs, m, a) && forall n: nat :: InSlab(slabs, n, a) ==> n == m
  {
    hide IsObject;
    assert SlabOk(m, slabs[m], stride, total);
    ChainMisses(m, stride, total, slabs[m].free, a);
    TotalFits(stride);
    ObjectInside(m, stride, total, a);
  }

  lemma LiveInside(slabs: map<nat, Slab>, partial: seq<nat>, full: seq<nat>, empty: seq<nat>, stride: nat,
                   total: nat, a: nat)
    requires CacheOk(slabs, partial, full, empty, stride, total) && IsLive(slabs, stride, total, a)
    ensures exists m: nat :: m in slabs && m <= a && a + stride <= m + SLAB_SIZE
  {
    var m :| LiveIn(slabs, stride, total, m, a);
    TotalFits(stride);
    ObjectInside(m, stride, total, a);
  }

  lemma LiveAligned(slabs: map<nat, Slab>, partial: seq<nat>, full: seq<nat>, empty: seq<nat>,
                    size: nat, align: nat, stride: nat, total: nat, a: nat)
    requires CacheOk(slabs, partial, full, empty, stride, total) && IsLive(slabs, stride, total, a)
    requires align > 0 && stride == RoundUp(size, align) && PAGE_SIZE % align == 0
    ensures a % align == 0
  {
    var m :| LiveIn(slabs, stride, total, m, a);
    RoundUpAligned(size, align);
    PageAlignmentSuffices(align);
    assert SlabOk(m, slabs[m], stride, total);
    assert IsObject(m, stride, total, a);
    ObjectsAligned(m, stride, total, align);
  }

  // ---------------------------------------------------------------- the cache

  class SlabCache {
    const objSize: nat
    const align: nat
    const stride: nat
    const total: nat
    var slabs: map<nat, Slab>
    var partial: seq<nat>
    var full: seq<nat>
    var empty: seq<nat>

    ghost predicate Valid()
      reads this
    {
      && SLAB_MIN_SIZE <= objSize <= SLAB_MAX_SIZE && align > 0 && stride == RoundUp(objSize, align)
      && CacheOk(slabs, partial, full, empty, stride, total)
    }

    ghost predicate Live(a: nat)
      reads this
    {
      IsLive(slabs, stride, total, a)
    }

    /** New memory for a slab: page-aligned and apart from all slabs. */
    predicate NewRegion(mem: nat)
      reads this
    {
      mem > 0 && mem % PAGE_SIZE == 0 && forall m :: m in slabs ==> m + SLAB_SIZE <= mem || mem + SLAB_SIZE <= m
    }

    /** heap_create_slab_cache, for a size it accepts and with memory for the first slab. */
    constructor (objSize: nat, align: nat, mem: nat)
      requires SLAB_MIN_SIZE <= objSize <= SLAB_MAX_SIZE && mem > 0 && mem % PAGE_SIZE == 0
      ensures Valid() && this.objSize == objSize && this.align == (if align == 0 then POINTER_SIZE else align)
      ensures forall a: nat :: !Live(a)
      ensures partial == [mem] && full == [] && empty == [] && slabs.Keys == {mem} && slabs[mem].numFree == total
    {
      this.objSize := objSize;
      var al := if align == 0 then POINTER_SIZE else align;
      this.align := al;
      stride := RoundUp(objSize, al);
      total := SLAB_SIZE / RoundUp(objSize, al);
      slabs, partial, full, empty := map[], [], [], [];
      new;
      var slab := FormatSlab(mem);
      ChainCount(mem, stride, total, slab.free);
      slabs, partial := map[mem := slab], [mem];
    }

    /** The free list that slab_create threads through new memory: every object, once. */
    method FormatSlab(mem: nat) returns (slab: Slab)
      requires mem > 0 && mem % PAGE_SIZE == 0 && stride > 0 && total == SLAB_SIZE / stride
      ensures SlabOk(mem, slab, stride, total) && slab.numFree == total
      ensures forall a: nat :: IsObject(mem, stride, total, a) ==> a in slab.free
    {
      var free: seq<nat> := [];
      var i := 0;
      while i < total
        invariant 0 <= i <= total && |free| == i && NoDuplicates(free)
        invariant forall a :: a in free ==> IsObject(mem, stride, i, a)
        invariant forall j: nat, a: nat :: j < i && ObjectAt(mem, stride, j, a) ==> a in free
      {
        var obj := mem + i * stride;
        assert ObjectAt(mem, stride, i, obj);
        NextObject(mem, stride, i, free);
        PushKeeps(free, obj);
        free := [obj] + free;
        i := i + 1;
      }
      slab := Slab(free, total, total);
    }

    /** The part of heap_slab_alloc that finds a slab: the first partial one, else an empty one, else new
        memory. */
    method TakeSlab(region: Option<nat>) returns (ok: bool)
      requires Valid() && (region.Some? ==> NewRegion(region.value))
      modifies this
      ensures Valid() && full == old(full)
      ensures ok <==> old(partial) != [] || old(empty) != [] || region.Some?
      ensures ok ==> partial != [] && Found(old(slabs), old(partial), old(empty), region, total, slabs, partial, empty)
      ensures !ok ==> slabs == old(slabs) && partial == old(partial) && empty == old(empty)
      ensures slabs.Keys <= old(slabs).Keys + (if region.Some? then {region.value} else {})
      ensures forall a: nat :: Live(a) <==> old(Live(a))
      ensures FullIsFull(old(slabs), old(full)) ==> FullIsFull(slabs, full)
    {
      hide IsObject;
      hide IsLive;
      hide CacheOk;
      hide SlabOk;
      hide RegionsApart;
      hide NoDuplicates;
      hide FullIsFull;
      hide Found;
      FrontsThere(slabs, partial, full, empty, stride, total);
      if partial != [] {
        FoundAt(slabs, partial, empty, region, total);
        return true;
      }
      if empty != [] {
        var m := empty[0];
        FoundAt(slabs, partial, empty, region, total);
        ReviveKeeps(slabs, partial, full, empty, stride, total);
        empty, partial := empty[1..], [m] + partial;
        return true;
      }
      if region.None? {
        return false;
      }
      var m := region.value;
      assert m !in slabs;
      CacheSizes(slabs, partial, full, empty, stride, total);
      var slab := FormatSlab(m);
      AddLive(slabs, stride, total, m, slab);
      AddKeeps(slabs, partial, full, empty, stride, total, m, slab);
      FoundNew(slabs, m, total, slab);
      slabs, partial := slabs[m := slab], [m] + partial;
      ok := true;
    }

    /** Take the first object of the first partial slab. */
    method TakeObject() returns (obj: nat)
      requires Valid() && partial != [] && total > 0
      modifies this
      ensures Valid() && obj != 0 && slabs.Keys == old(slabs).Keys
      ensures Took(old(slabs), old(partial), old(full), old(partial)[0], slabs, partial, full, obj) && empty == old(empty)
      ensures !old(Live(obj)) && forall a: nat :: Live(a) <==> old(Live(a)) || a == obj
      ensures FullIsFull(old(slabs), old(full)) ==> FullIsFull(slabs, full)
    {
      hide IsObject;
      hide IsLive;
      hide CacheOk;
      hide NoDuplicates;
      hide RegionsApart;
      CacheSizes(slabs, partial, full, empty, stride, total);
      var m := partial[0];
      assert m in partial;
      var slab := slabs[m];
      obj := slab.free[0];
      assert obj in slab.free;
      ObjectPositive(m, stride, total, obj);
      ObjectRange(slabs, partial, full, empty, stride, total, m, obj);
      var rest := Slab(slab.free[1..], slab.numFree - 1, slab.numTotal);
      PopLive(slabs, stride, total, m, rest);
      TakeKeeps(slabs, partial, full, empty, stride, total, rest);
      slabs := slabs[m := rest];
      if rest.numFree == 0 {
        partial, full := partial[1..], [m] + full;
      }
    }

    /** heap_slab_alloc: an object that nobody has. It fails exactly when no slab can be had, or when the
        alignment exceeds the size of a slab, so that slabs hold no object. */
    method Alloc(region: Option<nat>) returns (obj: nat)
      requires Valid() && (region.Some? ==> NewRegion(region.value))
      modifies this
      ensures Valid()
      ensures obj == 0 <==> align > SLAB_SIZE || (old(partial) == [] && old(empty) == [] && region.None?)
      ensures obj == 0 ==> forall a: nat :: Live(a) <==> old(Live(a))
      ensures slabs.Keys <= old(slabs).Keys + (if region.Some? then {region.value} else {})
      ensures obj != 0 ==>
                AllocTook(old(slabs), old(partial), old(full), old(empty), region, total, slabs, partial, full, empty, obj)
      ensures obj != 0 ==> !old(Live(obj)) && forall a: nat :: Live(a) <==> old(Live(a)) || a == obj
      ensures FullIsFull(old(slabs), old(full)) ==> FullIsFull(slabs, full)
    {
      hide IsObject;
      hide IsLive;
      hide Found;
      hide Took;
      hide AllocTook;
      hide FullIsFull;
      hide NoDuplicates;
      hide RegionsApart;
      TotalFits(stride);
      StrideTooBig(objSize, align);
      var ok := TakeSlab(region);
      if !ok {
        return 0;
      }
      var m := partial[0];
      assert m in partial && SlabOk(m, slabs[m], stride, total);
      if slabs[m].free == [] {
        return 0;
      }
      ChainCount(m, stride, total, slabs[m].free);
      ghost var slabs1, partial1 := slabs, partial;
      obj := TakeObject();
      FoundThenTook(old(slabs), old(partial), old(full), old(empty), region, total, slabs1, partial1, slabs, partial,
                    full, empty, obj);
    }

    /** Search one list for the slab around an address. */
    method FindIn(list: seq<nat>, obj: nat) returns (p: Option<nat>)
      ensures p.Some? ==> p.value < |list| && list[p.value] <= obj < list[p.value] + SLAB_SIZE
      ensures p.Some? ==> forall q :: 0 <= q < p.value ==> !(list[q] <= obj < list[q] + SLAB_SIZE)
      ensures p.None? ==> forall q :: 0 <= q < |list| ==> !(list[q] <= obj < list[q] + SLAB_SIZE)
    {
      var k := 0;
      while k < |list|
        invariant 0 <= k <= |list|
        invariant forall q :: 0 <= q < k ==> !(list[q] <= obj < list[q] + SLAB_SIZE)
      {
        if list[k] <= obj < list[k] + SLAB_SIZE {
          return Some(k);
        }
        k := k + 1;
      }
      p := None;
    }

    /** heap_slab_free: a live object is no longer live, an address outside all slabs is ignored. A full slab
        that is not the first of its list stays on it with a free object, unless it is empty by that. */
    method Free(obj: nat)
      requires Valid() && (Live(obj) || forall m: nat :: !InSlab(slabs, m, obj))
      modifies this
      ensures Valid() && slabs.Keys == old(slabs).Keys
      ensures forall a: nat :: Live(a) <==> old(Live(a)) && a != obj
      ensures !old(Live(obj)) ==>
                slabs == old(slabs) && partial == old(partial) && full == old(full) && empty == old(empty)
      ensures old(Live(obj)) && FullIsFull(old(slabs), old(full)) ==>
                (FullIsFull(slabs, full) <==> total == 1 || NotBehindFirst(old(full), obj))
    {
      hide IsObject;
      hide CacheOk;
      hide IsLive;
      ghost var owner := OwnerOf(slabs, partial, full, empty, stride, total, obj);
      if obj == 0 {
        return;
      }
      CacheSizes(slabs, partial, full, empty, stride, total);
      var p := FindIn(full, obj);
      if p.Some? {
        assert full[p.value] in full && InSlab(slabs, full[p.value], obj);
        FoundFirst(slabs, full, p.value, obj);
        ReturnToFull(p.value, obj);
        return;
      }
      assert NotBehindFirst(full, obj);
      p := FindIn(partial, obj);
      if p.Some? {
        assert partial[p.value] in partial && InSlab(slabs, partial[p.value], obj);
        ReturnToPartial(p.value, obj);
      }
    }

    /** The slab was found on the full list. */
    method ReturnToFull(p: nat, obj: nat)
      requires Valid() && p < |full| && full[p] in slabs && LiveIn(slabs, stride, total, full[p], obj)
      modifies this
      ensures Valid() && slabs.Keys == old(slabs).Keys
      ensures forall a: nat :: Live(a) <==> old(Live(a)) && a != obj
      ensures FullIsFull(old(slabs), old(full)) ==> (FullIsFull(slabs, full) <==> total == 1 || p == 0)
    {
      hide IsObject;
      hide CacheOk;
      hide IsLive;
      hide RegionsApart;
      hide NoDuplicates;
      CacheSizes(slabs, partial, full, empty, stride, total);
      var m := full[p];
      assert m in full;
      var slab := Slab([obj] + slabs[m].free, slabs[m].numFree + 1, slabs[m].numTotal);
      PushLive(slabs, stride, total, m, obj, slab);
      FullReturnKeeps(slabs, partial, full, empty, stride, total, p, obj, slab);
      if FullIsFull(slabs, full) {
        FullReturnExact(slabs, full, total, p, slab);
      }
      slabs := slabs[m := slab];
      if slab.numFree == 1 && p == 0 {
        full, partial := full[..p] + full[p + 1..], [m] + partial;
      } else if slab.numFree == slab.numTotal {
        full, empty := full[..p] + full[p + 1..], [m] + empty;
      }
    }

    /** The slab was found on the partial list. */
    method ReturnToPartial(p: nat, obj: nat)
      requires Valid() && p < |partial| && partial[p] in slabs && LiveIn(slabs, stride, total, partial[p], obj)
      modifies this
      ensures Valid() && full == old(full) && slabs.Keys == old(slabs).Keys
      ensures forall a: nat :: Live(a) <==> old(Live(a)) && a != obj
      ensures FullIsFull(old(slabs), old(full)) ==> FullIsFull(slabs, full)
    {
      hide IsObject;
      hide CacheOk;
      hide IsLive;
      hide RegionsApart;
      hide NoDuplicates;
      CacheSizes(slabs, partial, full, empty, stride, total);
      var m := partial[p];
      assert m in partial;
      var slab := Slab([obj] + slabs[m].free, slabs[m].numFree + 1, slabs[m].numTotal);
      PushLive(slabs, stride, total, m, obj, slab);
      PartialReturnKeeps(slabs, partial, full, empty, stride, total, p, obj, slab);
      slabs := slabs[m := slab];
      if slab.numFree == slab.numTotal {
        partial, empty := partial[..p] + partial[p + 1..], [m] + empty;
      }
    }
  }

  /** The slab that an object is taken from: the first partial one, else the first empty one, else new memory. */
  function Source(partial: seq<nat>, empty: seq<nat>, region: Option<nat>): nat {
    if partial != [] then partial[0] else if empty != [] then empty[0] else if region.Some? then region.value else 0
  }

  /** That slab is at the front of the partial list. */
  ghost predicate Found(slabs: map<nat, Slab>, partial: seq<nat>, empty: seq<nat>, region: Option<nat>, total: nat,
                        slabs': map<nat, Slab>, partial': seq<nat>, empty': seq<nat>) {
    var m := Source(partial, empty, region);
    && m in slabs' && slabs' - {m} == slabs - {m}
    && slabs'[m].numFree == (if m in slabs then slabs[m].numFree else total)
    && partial' == (if partial != [] then partial else [m])
    && empty' == (if partial == [] && empty != [] then empty[1..] else empty)
  }

  lemma FoundAt(slabs: map<nat, Slab>, partial: seq<nat>, empty: seq<nat>, region: Option<nat>, total: nat)
    requires partial != [] || empty != []
    requires Source(partial, empty, region) in slabs
    ensures Found(slabs, partial, empty, region, total, slabs, if partial != [] then partial else [empty[0]] + partial,
                  if partial != [] then empty else empty[1..])
  {
  }

  lemma FoundNew(slabs: map<nat, Slab>, m: nat, total: nat, slab: Slab)
    requires m !in slabs && slab.numFree == total
    ensures Found(slabs, [], [], Some(m), total, slabs[m := slab], [m] + [], [])
  {
  }

  lemma FrontsThere(slabs: map<nat, Slab>, partial: seq<nat>, full: seq<nat>, empty: seq<nat>, stride: nat, total: nat)
    requires CacheOk(slabs, partial, full, empty, stride, total)
    ensures partial != [] ==> partial[0] in slabs
    ensures empty != [] ==> empty[0] in slabs
  {
    assert partial != [] ==> partial[0] in partial;
    assert empty != [] ==> empty[0] in empty;
  }

  lemma FoundThenTook(slabs: map<nat, Slab>, partial: seq<nat>, full: seq<nat>, empty: seq<nat>, region: Option<nat>,
                      total: nat, slabs1: map<nat, Slab>, partial1: seq<nat>,
                      slabs': map<nat, Slab>, partial': seq<nat>, full': seq<nat>, empty': seq<nat>, obj: nat)
    requires Found(slabs, partial, empty, region, total, slabs1, partial1, empty') && partial1 != []
    requires Took(slabs1, partial1, full, partial1[0], slabs', partial', full', obj)
    ensures AllocTook(slabs, partial, full, empty, region, total, slabs', partial', full', empty', obj)
  {
  }

  /** An object of slab m was taken, and m goes from the front of the partial list to that of the full one with its
      last object. */
  ghost predicate Took(slabs: map<nat, Slab>, partial: seq<nat>, full: seq<nat>, m: nat,
                       slabs': map<nat, Slab>, partial': seq<nat>, full': seq<nat>, obj: nat) {
    && m in slabs && m in slabs' && m <= obj < m + SLAB_SIZE && partial != []
    && slabs' - {m} == slabs - {m} && slabs'[m].numFree + 1 == slabs[m].numFree
    && partial' == (if slabs'[m].numFree == 0 then partial[1..] else partial)
    && full' == (if slabs'[m].numFree == 0 then [m] + full else full)
  }

  /** The same, with an empty or a new slab if there is no partial one. */
  ghost predicate AllocTook(slabs: map<nat, Slab>, partial: seq<nat>, full: seq<nat>, empty: seq<nat>,
                            region: Option<nat>, total: nat,
                            slabs': map<nat, Slab>, partial': seq<nat>, full': seq<nat>, empty': seq<nat>, obj: nat) {
    var m := Source(partial, empty, region);
    && m in slabs' && m <= obj < m + SLAB_SIZE && slabs' - {m} == slabs - {m}
    && slabs'[m].numFree + 1 == (if m in slabs then slabs[m].numFree else total)
    && var list := if partial != [] then partial else [m];
    && partial' == (if slabs'[m].numFree == 0 then list[1..] else list)
    && full' == (if slabs'[m].numFree == 0 then [m] + full else full)
    && empty' == (if partial == [] && empty != [] then empty[1..] else empty)
  }

  lemma ObjectRange(slabs: map<nat, Slab>, partial: seq<nat>, full: seq<nat>, empty: seq<nat>, stride: nat, total: nat,
                    m: nat, obj: nat)
    requires CacheOk(slabs, partial, full, empty, stride, total) && m in slabs && obj in slabs[m].free
    ensures m <= obj < m + SLAB_SIZE
  {
    hide IsObject;
    TotalFits(stride);
    assert SlabOk(m, slabs[m], stride, total);
    ObjectInside(m, stride, total, obj);
  }

  /** No slab of the list but the first contains the address. */
  ghost predicate NotBehindFirst(full: seq<nat>, obj: nat) {
    forall p :: 1 <= p < |full| ==> !(full[p] <= obj < full[p] + SLAB_SIZE)
  }

  /** The slab of a live object: it is found by its address, on the full or on the partial list. */
  ghost function OwnerOf(slabs: map<nat, Slab>, partial: seq<nat>, full: seq<nat>, empty: seq<nat>, stride: nat,
                         total: nat, obj: nat): (m: nat)
    requires CacheOk(slabs, partial, full, empty, stride, total)
    ensures IsLive(slabs, stride, total, obj) ==>
              LiveIn(slabs, stride, total, m, obj) && (m in full || m in partial) && obj > 0
              && InSlab(slabs, m, obj) && forall n: nat :: InSlab(slabs, n, obj) ==> n == m
  {
    if exists m: nat :: LiveIn(slabs, stride, total, m, obj) then
      var m: nat :| LiveIn(slabs, stride, total, m, obj);
      LiveListed(slabs, partial, full, empty, stride, total, m, obj);
      ObjectPositive(m, stride, total, obj);
      m
    else 0
  }

  lemma ReturnedOk(m: nat, s: Slab, stride: nat, total: nat, obj: nat)
    requires SlabOk(m, s, stride, total) && IsObject(m, stride, total, obj) && obj !in s.free
    ensures SlabOk(m, Slab([obj] + s.free, s.numFree + 1, s.numTotal), stride, total)
    ensures s.numFree < total
  {
    hide IsObject;
    PushKeeps(s.free, obj);
    ChainMisses(m, stride, total, s.free, obj);
  }

  lemma FullReturnKeeps(slabs: map<nat, Slab>, partial: seq<nat>, full: seq<nat>, empty: seq<nat>, stride: nat,
                        total: nat,
                        p: nat, obj: nat, slab: Slab)
    requires CacheOk(slabs, partial, full, empty, stride, total) && p < |full|
    requires full[p] in slabs && LiveIn(slabs, stride, total, full[p], obj)
    requires var s := slabs[full[p]]; slab == Slab([obj] + s.free, s.numFree + 1, s.numTotal)
    ensures var slabs', m := slabs[full[p] := slab], full[p];
            if slab.numFree == 1 && p == 0 then
              CacheOk(slabs', [m] + partial, Unlink(full, p), empty, stride, total)
            else if slab.numFree == slab.numTotal then
              CacheOk(slabs', partial, Unlink(full, p), [m] + empty, stride, total)
            else
              CacheOk(slabs', partial, full, empty, stride, total)
  {
    hide IsObject;
    var m := full[p];
    assert m in full;
    ReturnedOk(m, slabs[m], stride, total, obj);
    hide SlabOk;
    hide RegionsApart;
    var slabs' := slabs[m := slab];
    assert slabs'.Keys == slabs.Keys;
    SameRegions(slabs, slabs');
    if slab.numFree == 1 && p == 0 {
      UnlinkKeeps(full, p);
      Reorder(slabs.Keys, partial, full, empty);
      MoveSlab(slabs.Keys, full, partial, empty, p);
      Reorder(slabs.Keys, Unlink(full, p), [m] + partial, empty);
    } else if slab.numFree == slab.numTotal {
      FullToEmpty(slabs, slabs', partial, full, empty, total, p);
    }
  }

  lemma FullToEmpty(slabs: map<nat, Slab>, slabs': map<nat, Slab>, partial: seq<nat>, full: seq<nat>,
                    empty: seq<nat>, total: nat, p: nat)
    requires OnOneList(slabs.Keys, partial, full, empty) && Levels(slabs, partial, full, empty, total) && p < |full|
    requires full[p] in slabs && slabs'.Keys == slabs.Keys && slabs'[full[p]].numFree == total > 0
    requires forall m :: m in slabs && m != full[p] ==> slabs'[m] == slabs[m]
    ensures OnOneList(slabs'.Keys, partial, Unlink(full, p), [full[p]] + empty)
    ensures Levels(slabs', partial, Unlink(full, p), [full[p]] + empty, total)
  {
    var m := full[p];
    assert m in full;
    UnlinkKeeps(full, p);
    Reorder(slabs.Keys, partial, full, empty);
    Reorder(slabs.Keys, full, partial, empty);
    MoveSlab(slabs.Keys, full, empty, partial, p);
    Reorder(slabs.Keys, Unlink(full, p), [m] + empty, partial);
    Reorder(slabs.Keys, Unlink(full, p), partial, [m] + empty);
  }

  /** Whether the full list still holds only full slabs. */
  lemma FullReturnExact(slabs: map<nat, Slab>, full: seq<nat>, total: nat, p: nat, slab: Slab)
    requires FullIsFull(slabs, full) && NoDuplicates(full) && p < |full| && forall m :: m in full ==> m in slabs
    requires slab.numFree == 1 && slab.numTotal == total
    ensures var slabs' := slabs[full[p] := slab];
            if p == 0 || total == 1 then FullIsFull(slabs', Unlink(full, p)) else !FullIsFull(slabs', full)
  {
    UnlinkKeeps(full, p);
    assert full[p] in full;
  }

  lemma FoundFirst(slabs: map<nat, Slab>, full: seq<nat>, p: nat, obj: nat)
    requires RegionsApart(slabs) && NoDuplicates(full) && p < |full| && forall m :: m in full ==> m in slabs
    requires full[p] <= obj < full[p] + SLAB_SIZE
    ensures NotBehindFirst(full, obj) <==> p == 0
  {
    assert forall q :: 0 <= q < |full| ==> full[q] in full;
  }

  lemma SameRegions(slabs: map<nat, Slab>, slabs': map<nat, Slab>)
    requires RegionsApart(slabs) && slabs'.Keys == slabs.Keys
    ensures RegionsApart(slabs')
  {
    assert forall m :: m in slabs' ==> m in slabs;
  }

  lemma PartialReturnKeeps(slabs: map<nat, Slab>, partial: seq<nat>, full: seq<nat>, empty: seq<nat>, stride: nat,
                           total: nat,
                           p: nat, obj: nat, slab: Slab)
    requires CacheOk(slabs, partial, full, empty, stride, total) && p < |partial|
    requires partial[p] in slabs && LiveIn(slabs, stride, total, partial[p], obj)
    requires var s := slabs[partial[p]]; slab == Slab([obj] + s.free, s.numFree + 1, s.numTotal)
    ensures var slabs', m, done := slabs[partial[p] := slab], partial[p], slab.numFree == slab.numTotal;
            && CacheOk(slabs', if done then Unlink(partial, p) else partial, full,
                       if done then [m] + empty else empty, stride, total)
            && (FullIsFull(slabs, full) ==> FullIsFull(slabs', full))
  {
    hide IsObject;
    var m := partial[p];
    assert m in partial;
    ReturnedOk(m, slabs[m], stride, total, obj);
    hide SlabOk;
    hide RegionsApart;
    var slabs' := slabs[m := slab];
    assert slabs'.Keys == slabs.Keys;
    SameRegions(slabs, slabs');
    if slab.numFree == slab.numTotal {
      PartialToEmpty(slabs, slabs', partial, full, empty, total, p);
    }
  }

  lemma PartialToEmpty(slabs: map<nat, Slab>, slabs': map<nat, Slab>, partial: seq<nat>, full: seq<nat>,
                       empty: seq<nat>, total: nat, p: nat)
    requires OnOneList(slabs.Keys, partial, full, empty) && Levels(slabs, partial, full, empty, total) && p < |partial|
    requires partial[p] in slabs && slabs'.Keys == slabs.Keys && slabs'[partial[p]].numFree == total > 0
    requires forall m :: m in slabs && m != partial[p] ==> slabs'[m] == slabs[m]
    ensures OnOneList(slabs'.Keys, Unlink(partial, p), full, [partial[p]] + empty)
    ensures Levels(slabs', Unlink(partial, p), full, [partial[p]] + empty, total)
  {
    var m := partial[p];
    assert m in partial;
    UnlinkKeeps(partial, p);
    Reorder(slabs.Keys, partial, full, empty);
    MoveSlab(slabs.Keys, partial, empty, full, p);
    Reorder(slabs.Keys, Unlink(partial, p), [m] + empty, full);
  }

  lemma PartialToFull(slabs: map<nat, Slab>, slabs': map<nat, Slab>, partial: seq<nat>, full: seq<nat>,
                      empty: seq<nat>, total: nat)
    requires OnOneList(slabs.Keys, partial, full, empty) && Levels(slabs, partial, full, empty, total)
             && partial != [] && total > 0
    requires partial[0] in slabs && slabs'.Keys == slabs.Keys && slabs'[partial[0]].numFree == 0
    requires forall m :: m in slabs && m != partial[0] ==> slabs'[m] == slabs[m]
    ensures OnOneList(slabs'.Keys, partial[1..], [partial[0]] + full, empty)
    ensures Levels(slabs', partial[1..], [partial[0]] + full, empty, total)
  {
    var m := partial[0];
    assert m in partial;
    UnlinkKeeps(partial, 0);
    MoveSlab(slabs.Keys, partial, full, empty, 0);
    assert Unlink(partial, 0) == partial[1..];
  }

  lemma CacheSizes(slabs: map<nat, Slab>, partial: seq<nat>, full: seq<nat>, empty: seq<nat>, stride: nat, total: nat)
    requires CacheOk(slabs, partial, full, empty, stride, total)
    ensures stride > 0 && total == SLAB_SIZE / stride && RegionsApart(slabs)
    ensures forall m :: m in partial ==>
              m in slabs && SlabOk(m, slabs[m], stride, total) && (slabs[m].free != [] || total == 0)
    ensures forall m :: m in full ==> m in slabs && SlabOk(m, slabs[m], stride, total)
    ensures NoDuplicates(full)
  {
  }

  /** An empty slab becomes partial. */
  lemma ReviveKeeps(slabs: map<nat, Slab>, partial: seq<nat>, full: seq<nat>, empty: seq<nat>, stride: nat, total: nat)
    requires CacheOk(slabs, partial, full, empty, stride, total) && empty != []
    ensures CacheOk(slabs, [empty[0]] + partial, full, empty[1..], stride, total)
  {
    hide SlabOk;
    hide RegionsApart;
    Reorder(slabs.Keys, partial, full, empty);
    Reorder(slabs.Keys, partial, empty, full);
    MoveSlab(slabs.Keys, empty, partial, full, 0);
    assert Unlink(empty, 0) == empty[1..];
    Reorder(slabs.Keys, empty[1..], [empty[0]] + partial, full);
    Reorder(slabs.Keys, [empty[0]] + partial, empty[1..], full);
    assert empty[0] in empty;
  }

  /** A new slab becomes partial. */
  lemma AddKeeps(slabs: map<nat, Slab>, partial: seq<nat>, full: seq<nat>, empty: seq<nat>, stride: nat, total: nat,
                 m: nat, slab: Slab)
    requires CacheOk(slabs, partial, full, empty, stride, total) && SlabOk(m, slab, stride, total)
             && slab.numFree == total
    requires forall n :: n in slabs ==> n + SLAB_SIZE <= m || m + SLAB_SIZE <= n
    ensures CacheOk(slabs[m := slab], [m] + partial, full, empty, stride, total)
    ensures FullIsFull(slabs, full) ==> FullIsFull(slabs[m := slab], full)
  {
    hide SlabOk;
    assert m !in slabs;
    PushKeeps(partial, m);
  }

  /** A partial slab gives an object away; with the last one it becomes full. */
  lemma TakeKeeps(slabs: map<nat, Slab>, partial: seq<nat>, full: seq<nat>, empty: seq<nat>, stride: nat, total: nat,
                  rest: Slab)
    requires CacheOk(slabs, partial, full, empty, stride, total) && partial != [] && total > 0
    requires partial[0] in slabs && slabs[partial[0]].free != [] && slabs[partial[0]].numFree > 0
    requires var s := slabs[partial[0]]; rest == Slab(s.free[1..], s.numFree - 1, s.numTotal)
    ensures rest.numFree > 0 ==> CacheOk(slabs[partial[0] := rest], partial, full, empty, stride, total)
    ensures rest.numFree == 0 ==>
              CacheOk(slabs[partial[0] := rest], partial[1..], [partial[0]] + full, empty, stride, total)
    ensures FullIsFull(slabs, full) && rest.numFree == 0 ==> FullIsFull(slabs[partial[0] := rest], [partial[0]] + full)
    ensures FullIsFull(slabs, full) && rest.numFree > 0 ==> FullIsFull(slabs[partial[0] := rest], full)
  {
    var m := partial[0];
    assert m in partial;
    RestOk(m, slabs[m], stride, total);
    hide SlabOk;
    hide RegionsApart;
    var slabs' := slabs[m := rest];
    assert slabs'.Keys == slabs.Keys;
    SameRegions(slabs, slabs');
    if rest.numFree == 0 {
      PartialToFull(slabs, slabs', partial, full, empty, total);
    }
  }

  lemma ObjectPositive(m: nat, stride: nat, total: nat, a: nat)
    requires IsObject(m, stride, total, a) && m > 0
    ensures a > 0
  {
  }

  lemma RestOk(m: nat, slab: Slab, stride: nat, total: nat)
    requires SlabOk(m, slab, stride, total) && slab.free != []
    ensures SlabOk(m, Slab(slab.free[1..], slab.numFree - 1, slab.numTotal), stride, total)
  {
  }

  lemma NextObject(mem: nat, stride: nat, i: nat, free: seq<nat>)
    requires stride > 0 && forall a :: a in free ==> IsObject(mem, stride, i, a)
    ensures mem + i * stride !in free
    ensures forall a :: a in free ==> IsObject(mem, stride, i + 1, a)
    ensures IsObject(mem, stride, i + 1, mem + i * stride)
  {
    assert ObjectAt(mem, stride, i, mem + i * stride);
    forall a | a in free
      ensures IsObject(mem, stride, i + 1, a) && a != mem + i * stride
    {
      var j: nat :| j < i && ObjectAt(mem, stride, j, a);
      Distribute(j, 1, stride);
      Monotone(j + 1, i, stride);
    }
  }

  /** A cache with two full slabs of two objects each: giving back an object of the slab behind the first one leaves
      a slab with a free object on the full list. */
  method FreeObjectOnFullList() returns (cache: SlabCache)
    ensures cache.Valid() && !FullIsFull(cache.slabs, cache.full)
  {
    hide IsObject;
    hide IsLive;
    hide CacheOk;
    hide RegionsApart;
    hide SlabOk;
    hide NoDuplicates;
    var a, b := 0x10000, 0x20000;
    cache := new SlabCache(512, 8192, a);
    CacheSizes(cache.slabs, cache.partial, cache.full, cache.empty, cache.stride, cache.total);
    assert FullIsFull(cache.slabs, cache.full);
    assert cache.total == 2 && cache.slabs[a].numFree == 2;
    var a1 := cache.Alloc(None);
    assert cache.slabs[a].numFree == 1 && cache.partial == [a];
    var a2 := cache.Alloc(None);
    assert cache.slabs[a].numFree == 0 && cache.partial == [] && cache.full == [a];
    var b1 := cache.Alloc(Some(b));
    assert cache.slabs[b].numFree == 1 && cache.partial == [b];
    var b2 := cache.Alloc(None);
    assert cache.full == [b, a];
    assert cache.full[1] <= a1 < cache.full[1] + SLAB_SIZE;
    cache.Free(a1);
  }
}
