/** The sorted list of areas of an address space, as a value, and what it means for a single page. */
module Areas {
  import opened Options
  import opened FrameAllocator

  datatype Kind = Anon | Phys | File | Shared
  datatype VmFlags = VmFlags(read: bool, write: bool, exec: bool, user: bool, nocache: bool)
  datatype AllocFlags = AllocFlags(lazy: bool, zero: bool, cow: bool)

  /** An area [start, end). `node` is the frame that holds the descriptor itself. */
  datatype Area = Area(start: nat, end: nat, flags: VmFlags, kind: Kind, alloc: AllocFlags, phys: nat, node: nat)

  /** What an address space says about one address. */
  datatype Attr = Attr(flags: VmFlags, kind: Kind, alloc: AllocFlags, phys: Option<nat>)

  predicate Contains(a: Area, v: nat) {
    a.start <= v < a.end
  }

  function AttrIn(a: Area, v: nat): Attr
    requires Contains(a, v)
  {
    Attr(a.flags, a.kind, a.alloc, if a.kind.Phys? then Some(a.phys + (v - a.start)) else None)
  }

  /** The attributes of an address: those of the first area that contains it. */
  function AttrOf(areas: seq<Area>, v: nat): (r: Option<Attr>)
    ensures r.Some? ==> (r.value.phys.Some? <==> r.value.kind.Phys?)
  {
    if areas == [] then None
    else if Contains(areas[0], v) then Some(AttrIn(areas[0], v))
    else AttrOf(areas[1..], v)
  }

  ghost predicate SameMeaning(a: seq<Area>, b: seq<Area>) {
    forall v: nat :: AttrOf(a, v) == AttrOf(b, v)
  }

  predicate WellFormed(a: Area) {
    a.start < a.end && Aligned(a.start) && Aligned(a.end)
  }

  ghost predicate Sorted(areas: seq<Area>) {
    && (forall i :: 0 <= i < |areas| ==> WellFormed(areas[i]))
    && (forall i, j :: 0 <= i < j < |areas| ==> areas[i].end <= areas[j].start)
  }

  function TotalSize(areas: seq<Area>): nat {
    if areas == [] then 0 else Size(areas[0]) + TotalSize(areas[1..])
  }

  function Size(a: Area): nat {
    if a.start <= a.end then a.end - a.start else 0
  }

  // ---------------------------------------------------------------- meaning of lists put together

  lemma {:induction false} AttrOfConcat(a: seq<Area>, b: seq<Area>, v: nat)
    ensures AttrOf(a + b, v) == if AttrOf(a, v).Some? then AttrOf(a, v) else AttrOf(b, v)
  {
    if a == [] {
      assert a + b == b;
    } else {
      AttrOfConcat(a[1..], b, v);
      assert (a + b)[1..] == a[1..] + b;
    }
  }

  lemma {:induction false} TotalSizeConcat(a: seq<Area>, b: seq<Area>)
    ensures TotalSize(a + b) == TotalSize(a) + TotalSize(b)
  {
    if a == [] {
      assert a + b == b;
    } else {
      TotalSizeConcat(a[1..], b);
      assert (a + b)[1..] == a[1..] + b;
    }
  }

  lemma TotalSizeOne(a: Area)
    ensures TotalSize([a]) == Size(a)
  {
    assert [a][1..] == [];
  }

  /** An address has attributes exactly when some area contains it. */
  lemma {:induction false} AttrOfSome(areas: seq<Area>, v: nat)
    ensures AttrOf(areas, v).Some? <==> exists i :: 0 <= i < |areas| && Contains(areas[i], v)
  {
    if areas != [] {
      AttrOfSome(areas[1..], v);
      if Contains(areas[0], v) {
        assert Contains(areas[0], v);
      } else if AttrOf(areas[1..], v).Some? {
        var i :| 0 <= i < |areas[1..]| && Contains(areas[1..][i], v);
        assert Contains(areas[i + 1], v);
      } else {
        forall i | 0 <= i < |areas|
          ensures !Contains(areas[i], v)
        {
          assert i > 0 ==> areas[i] == areas[1..][i - 1];
        }
      }
    }
  }

  /** In a sorted list the area that contains an address is the one that counts. */
  lemma {:induction false} AttrOfAt(areas: seq<Area>, i: nat, v: nat)
    requires Sorted(areas) && i < |areas| && Contains(areas[i], v)
    ensures AttrOf(areas, v) == Some(AttrIn(areas[i], v))
  {
    if i > 0 {
      assert areas[0].end <= areas[i].start;
      SortedTail(areas);
      AttrOfAt(areas[1..], i - 1, v);
    }
  }

  lemma SortedTail(areas: seq<Area>)
    requires Sorted(areas) && areas != []
    ensures Sorted(areas[1..])
  {
  }

  // ---------------------------------------------------------------- split

  /** The two halves vmm_split_region makes of an area; the physical base moves along. */
  function Halves(a: Area, at: nat, node: nat): seq<Area>
    requires a.start <= at
  {
    [a.(end := at),
     Area(at, a.end, a.flags, a.kind, a.alloc, if a.kind.Phys? then a.phys + (at - a.start) else 0, node)]
  }

  function SplitAt(areas: seq<Area>, i: nat, at: nat, node: nat): seq<Area>
    requires i < |areas| && areas[i].start <= at
  {
    areas[..i] + Halves(areas[i], at, node) + areas[i + 1..]
  }

  lemma HalvesMean(a: Area, at: nat, node: nat, v: nat)
    requires a.start < at < a.end
    ensures AttrOf(Halves(a, at, node), v) == AttrOf([a], v)
  {
    var h := Halves(a, at, node);
    assert h[1..] == [h[1]] && h[1..][1..] == [] && [a][1..] == [];
  }

  /** Splitting keeps the order, the meaning of every address and the total size. */
  lemma SplitKeeps(areas: seq<Area>, i: nat, at: nat, node: nat)
    requires Sorted(areas) && i < |areas| && areas[i].start < at < areas[i].end && Aligned(at)
    ensures var s := SplitAt(areas, i, at, node);
            Sorted(s) && SameMeaning(s, areas) && TotalSize(s) == TotalSize(areas) && |s| == |areas| + 1
  {
    var h := Halves(areas[i], at, node);
    var s := SplitAt(areas, i, at, node);
    assert areas == areas[..i] + [areas[i]] + areas[i + 1..];
    assert s == areas[..i] + h + areas[i + 1..];
    forall v: nat
      ensures AttrOf(s, v) == AttrOf(areas, v)
    {
      HalvesMean(areas[i], at, node, v);
      AttrOfConcat(areas[..i] + h, areas[i + 1..], v);
      AttrOfConcat(areas[..i], h, v);
      AttrOfConcat(areas[..i] + [areas[i]], areas[i + 1..], v);
      AttrOfConcat(areas[..i], [areas[i]], v);
    }
    SplitSizes(areas, i, at, node);
    SplitSorted(areas, i, at, node);
  }

  lemma SplitSizes(areas: seq<Area>, i: nat, at: nat, node: nat)
    requires i < |areas| && areas[i].start < at < areas[i].end
    ensures TotalSize(SplitAt(areas, i, at, node)) == TotalSize(areas)
  {
    var h := Halves(areas[i], at, node);
    assert areas == areas[..i] + [areas[i]] + areas[i + 1..];
    TotalSizeConcat(areas[..i] + h, areas[i + 1..]);
    TotalSizeConcat(areas[..i], h);
    TotalSizeConcat(areas[..i] + [areas[i]], areas[i + 1..]);
    TotalSizeConcat(areas[..i], [areas[i]]);
    assert h[1..] == [h[1]] && h[1..][1..] == [] && [areas[i]][1..] == [];
    assert TotalSize(h) == Size(h[0]) + Size(h[1]);
  }

  lemma SplitSorted(areas: seq<Area>, i: nat, at: nat, node: nat)
    requires Sorted(areas) && i < |areas| && areas[i].start < at < areas[i].end && Aligned(at)
    ensures Sorted(SplitAt(areas, i, at, node))
  {
    var s := SplitAt(areas, i, at, node);
    forall k | 0 <= k < |s|
      ensures WellFormed(s[k])
      ensures k < i ==> s[k] == areas[k]
      ensures k > i + 1 ==> s[k] == areas[k - 1]
    {
    }
  }

  // ---------------------------------------------------------------- merge

  /** vmm_can_merge_areas. */
  predicate CanMerge(a: Area, b: Area) {
    && a.end == b.start
    && a.flags == b.flags && a.kind == b.kind && a.alloc == b.alloc
    && (a.kind.Phys? ==> a.phys + Size(a) == b.phys)
  }

  /** One pass of vmm_merge_regions. */
  function Merge(areas: seq<Area>): seq<Area>
    decreases |areas|
  {
    if |areas| < 2 then areas
    else if CanMerge(areas[0], areas[1]) then Merge([areas[0].(end := areas[1].end)] + areas[2..])
    else [areas[0]] + Merge(areas[1..])
  }

  ghost predicate Maximal(areas: seq<Area>) {
    forall i :: 0 <= i < |areas| - 1 ==> !CanMerge(areas[i], areas[i + 1])
  }

  lemma JoinedMeans(a: Area, b: Area, v: nat)
    requires WellFormed(a) && WellFormed(b) && CanMerge(a, b)
    ensures AttrOf([a.(end := b.end)], v) == AttrOf([a, b], v)
  {
    assert [a, b][1..] == [b] && [b][1..] == [] && [a.(end := b.end)][1..] == [];
  }

  lemma JoinSorted(areas: seq<Area>)
    requires Sorted(areas) && |areas| >= 2 && CanMerge(areas[0], areas[1])
    ensures Sorted([areas[0].(end := areas[1].end)] + areas[2..])
  {
  }

  lemma JoinSize(a: Area, b: Area, rest: seq<Area>)
    requires WellFormed(a) && WellFormed(b) && CanMerge(a, b)
    ensures TotalSize([a.(end := b.end)] + rest) == TotalSize([a, b] + rest)
  {
    TotalSizeConcat([a.(end := b.end)], rest);
    TotalSizeConcat([a, b], rest);
    assert [a, b][1..] == [b] && [b][1..] == [] && [a.(end := b.end)][1..] == [];
  }

  /** Joining the first two areas keeps the order, the meaning and the total size. */
  lemma JoinKeeps(areas: seq<Area>)
    requires Sorted(areas) && |areas| >= 2 && CanMerge(areas[0], areas[1])
    ensures var j := [areas[0].(end := areas[1].end)] + areas[2..];
            Sorted(j) && SameMeaning(j, areas) && TotalSize(j) == TotalSize(areas)
  {
    hide AttrOf;
    hide TotalSize;
    var a, b, rest := areas[0], areas[1], areas[2..];
    assert areas == [a, b] + rest;
    JoinSorted(areas);
    JoinSize(a, b, rest);
    forall v: nat
      ensures AttrOf([a.(end := b.end)] + rest, v) == AttrOf([a, b] + rest, v)
    {
      JoinedMeans(a, b, v);
      AttrOfConcat([a.(end := b.end)], rest, v);
      AttrOfConcat([a, b], rest, v);
    }
  }

  /** A pass keeps the order, the meaning of every address and the total size, and leaves nothing to
      merge. */
  lemma {:induction false} MergeKeeps(areas: seq<Area>)
    requires Sorted(areas)
    ensures Sorted(Merge(areas)) && SameMeaning(Merge(areas), areas) && TotalSize(Merge(areas)) == TotalSize(areas)
    ensures Maximal(Merge(areas))
    decreases |areas|
  {
    if |areas| >= 2 {
      if CanMerge(areas[0], areas[1]) {
        JoinKeeps(areas);
        MergeKeeps([areas[0].(end := areas[1].end)] + areas[2..]);
      } else {
        SortedTail(areas);
        MergeKeeps(areas[1..]);
        MergeFirst(areas[1..]);
        ConsKeeps(areas[0], areas[1..], Merge(areas[1..]));
      }
    }
  }

  /** The first area of a merged list starts where the list started, and merges with what precedes it
      exactly if the first area of the list did. */
  lemma {:induction false} MergeFirst(areas: seq<Area>)
    requires areas != []
    ensures Merge(areas) != []
    ensures var m := Merge(areas)[0]; m == areas[0].(end := m.end)
    ensures forall a :: CanMerge(a, Merge(areas)[0]) == CanMerge(a, areas[0])
    decreases |areas|
  {
    if |areas| >= 2 && CanMerge(areas[0], areas[1]) {
      MergeFirst([areas[0].(end := areas[1].end)] + areas[2..]);
    }
  }

  /** Putting the same area in front of two lists that mean the same. */
  lemma ConsKeeps(a: Area, tail: seq<Area>, merged: seq<Area>)
    requires Sorted([a] + tail) && Sorted(merged) && SameMeaning(merged, tail) && TotalSize(merged) == TotalSize(tail)
    requires Maximal(merged) && tail != [] && merged != []
    requires merged[0].start == tail[0].start && CanMerge(a, merged[0]) == CanMerge(a, tail[0]) == false
    ensures Sorted([a] + merged) && SameMeaning([a] + merged, [a] + tail)
    ensures TotalSize([a] + merged) == TotalSize([a] + tail) && Maximal([a] + merged)
  {
    var l, r := [a] + merged, [a] + tail;
    forall v: nat
      ensures AttrOf(l, v) == AttrOf(r, v)
    {
      AttrOfConcat([a], merged, v);
      AttrOfConcat([a], tail, v);
    }
    TotalSizeConcat([a], merged);
    TotalSizeConcat([a], tail);
    assert r[0] == a && r[1] == tail[0];
    forall i | 0 <= i < |l|
      ensures WellFormed(l[i])
      ensures i > 0 ==> l[i] == merged[i - 1] && a.end <= l[i].start
    {
      if i > 0 {
        assert merged[0].start <= merged[i - 1].start;
      }
    }
    forall i | 0 <= i < |l| - 1
      ensures !CanMerge(l[i], l[i + 1])
    {
      assert i > 0 ==> l[i] == merged[i - 1] && l[i + 1] == merged[i];
    }
  }
}
