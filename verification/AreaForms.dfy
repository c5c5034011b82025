/** The maximal form of an area list is unique, so merging undoes any splits; and the first-fit search. */
module AreaForms {
  import opened Options
  import opened FrameAllocator
  import opened Areas

  /** An area without the parts that mean nothing for its addresses: where its descriptor lives, and the
      physical base of an area that is not a physical mapping. */
  function Strip(a: Area): Area {
    a.(node := 0, phys := if a.kind.Phys? then a.phys else 0)
  }

  function StripAll(areas: seq<Area>): seq<Area> {
    if areas == [] then [] else [Strip(areas[0])] + StripAll(areas[1..])
  }

  lemma NothingBefore(areas: seq<Area>, v: nat)
    requires Sorted(areas) && (areas != [] ==> v < areas[0].start)
    ensures AttrOf(areas, v) == None
  {
    AttrOfSome(areas, v);
  }

  lemma StartsNoLater(a: seq<Area>, b: seq<Area>)
    requires Sorted(a) && Sorted(b) && SameMeaning(a, b) && a != []
    ensures b != [] && b[0].start <= a[0].start
  {
    assert AttrOf(b, a[0].start) == AttrOf(a, a[0].start) == Some(AttrIn(a[0], a[0].start));
    AttrOfSome(b, a[0].start);
  }

  lemma SameStart(a: seq<Area>, b: seq<Area>)
    requires Sorted(a) && Sorted(b) && SameMeaning(a, b) && a != [] && b != []
    ensures a[0].start == b[0].start
    ensures StripHead(a[0]) == StripHead(b[0])
  {
    StartsNoLater(a, b);
    StartsNoLater(b, a);
    assert AttrOf(a, a[0].start) == AttrOf(b, a[0].start);
  }

  /** Everything of a stripped area but its end. */
  function StripHead(a: Area): Area {
    Strip(a).(end := 0)
  }

  /** In two lists with the same meaning, if an area of the one outlasts an area of the other that starts
      like it, then the other has a successor to merge with. */
  lemma ShorterMerges(a: seq<Area>, b: seq<Area>)
    requires Sorted(a) && Sorted(b) && SameMeaning(a, b) && a != [] && b != []
    requires StripHead(a[0]) == StripHead(b[0]) && a[0].end < b[0].end
    ensures |a| > 1 && CanMerge(a[0], a[1])
  {
    var p := a[0].end;
    assert AttrOf(a, p) == AttrOf(b, p) == Some(AttrIn(b[0], p));
    assert AttrOf(a[1..], p).Some?;
    AttrOfSome(a[1..], p);
    var i :| 0 <= i < |a[1..]| && Contains(a[1..][i], p);
    assert Contains(a[i + 1], p);
    assert a[1].start <= a[i + 1].start && a[0].end <= a[1].start;
    assert Contains(a[1], p);
    AttrOfAt(a, 1, p);
  }

  lemma NotShorter(a: seq<Area>, b: seq<Area>)
    requires Sorted(a) && Sorted(b) && SameMeaning(a, b) && a != [] && b != []
    requires Maximal(a) && StripHead(a[0]) == StripHead(b[0])
    ensures a[0].end >= b[0].end
  {
    if a[0].end < b[0].end {
      ShorterMerges(a, b);
    }
  }

  /** Two sorted maximal lists with the same meaning are the same list, up to the meaningless parts. */
  lemma {:induction false} MaximalFormUnique(a: seq<Area>, b: seq<Area>)
    requires Sorted(a) && Sorted(b) && SameMeaning(a, b) && Maximal(a) && Maximal(b)
    ensures StripAll(a) == StripAll(b)
  {
    if a != [] {
      StartsNoLater(a, b);
    }
    if b != [] {
      StartsNoLater(b, a);
    }
    if a != [] && b != [] {
      SameStart(a, b);
      NotShorter(a, b);
      NotShorter(b, a);
      TailsAgree(a, b);
      SortedTail(a);
      SortedTail(b);
      MaximalTail(a);
      MaximalTail(b);
      MaximalFormUnique(a[1..], b[1..]);
    }
  }

  lemma MaximalTail(a: seq<Area>)
    requires Maximal(a) && a != []
    ensures Maximal(a[1..])
  {
    forall i | 0 <= i < |a[1..]| - 1
      ensures !CanMerge(a[1..][i], a[1..][i + 1])
    {
      assert !CanMerge(a[i + 1], a[i + 2]);
    }
  }

  lemma TailsAgree(a: seq<Area>, b: seq<Area>)
    requires Sorted(a) && Sorted(b) && SameMeaning(a, b) && a != [] && b != []
    requires a[0].start == b[0].start && a[0].end == b[0].end
    ensures SameMeaning(a[1..], b[1..])
  {
    forall v: nat
      ensures AttrOf(a[1..], v) == AttrOf(b[1..], v)
    {
      assert AttrOf(a, v) == AttrOf(b, v);
      if Contains(a[0], v) {
        SortedTail(a);
        SortedTail(b);
        NothingBefore(a[1..], v);
        NothingBefore(b[1..], v);
      }
    }
  }

  // ---------------------------------------------------------------- splits undone by a merge

  /** A request to split: the page, and the frame for the new descriptor. */
  datatype Cut = Cut(at: nat, node: nat)

  /** vmm_split_region on the list: split the area that contains the page, unless it starts there. */
  function SplitRegion(areas: seq<Area>, cut: Cut): seq<Area> {
    if areas == [] then []
    else if areas[0].start < cut.at < areas[0].end
    then SplitAt(areas, 0, cut.at, cut.node)
    else [areas[0]] + SplitRegion(areas[1..], cut)
  }

  function SplitRegions(areas: seq<Area>, cuts: seq<Cut>): seq<Area> {
    if cuts == [] then areas else SplitRegion(SplitRegions(areas, cuts[..|cuts| - 1]), cuts[|cuts| - 1])
  }

  lemma {:induction false} SplitRegionKeeps(areas: seq<Area>, cut: Cut)
    requires Sorted(areas) && Aligned(cut.at)
    ensures Sorted(SplitRegion(areas, cut)) && SameMeaning(SplitRegion(areas, cut), areas)
    ensures areas != [] ==> SplitRegion(areas, cut) != [] && SplitRegion(areas, cut)[0].start == areas[0].start
  {
    if areas != [] {
      if areas[0].start < cut.at < areas[0].end {
        SplitKeeps(areas, 0, cut.at, cut.node);
      } else {
        SortedTail(areas);
        SplitRegionKeeps(areas[1..], cut);
        var tail := SplitRegion(areas[1..], cut);
        var s := [areas[0]] + tail;
        forall v: nat
          ensures AttrOf(s, v) == AttrOf(areas, v)
        {
          AttrOfConcat([areas[0]], tail, v);
          AttrOfConcat([areas[0]], areas[1..], v);
          assert [areas[0]] + areas[1..] == areas;
        }
        assert forall i :: 0 < i < |s| ==> s[i] == tail[i - 1];
        assert forall i :: 0 < i < |s| ==> tail[0].start <= s[i].start;
      }
    }
  }

  lemma {:induction false} SplitRegionsKeep(areas: seq<Area>, cuts: seq<Cut>)
    requires Sorted(areas) && forall i :: 0 <= i < |cuts| ==> Aligned(cuts[i].at)
    ensures Sorted(SplitRegions(areas, cuts)) && SameMeaning(SplitRegions(areas, cuts), areas)
  {
    if cuts != [] {
      var before := cuts[..|cuts| - 1];
      SplitRegionsKeep(areas, before);
      SplitRegionKeeps(SplitRegions(areas, before), cuts[|cuts| - 1]);
    }
  }

  /** Merging after any sequence of splits gives what merging before them gives. */
  lemma MergeUndoesSplits(areas: seq<Area>, cuts: seq<Cut>)
    requires Sorted(areas) && forall i :: 0 <= i < |cuts| ==> Aligned(cuts[i].at)
    ensures StripAll(Merge(SplitRegions(areas, cuts))) == StripAll(Merge(areas))
  {
    SplitRegionsKeep(areas, cuts);
    MergeKeeps(SplitRegions(areas, cuts));
    MergeKeeps(areas);
    MaximalFormUnique(Merge(SplitRegions(areas, cuts)), Merge(areas));
  }

  // ---------------------------------------------------------------- insert and remove

  /** vmm_insert_area. */
  function Insert(areas: seq<Area>, a: Area): seq<Area> {
    if areas == [] || a.start < areas[0].start then [a] + areas
    else [areas[0]] + Insert(areas[1..], a)
  }

  /** The range [from, to) meets no area. */
  ghost predicate Clear(areas: seq<Area>, from: nat, to: nat) {
    forall i :: 0 <= i < |areas| ==> to <= areas[i].start || areas[i].end <= from
  }

  /** Inserting into a clear range keeps the order and gives the range its attributes. */
  lemma {:induction false} InsertKeeps(areas: seq<Area>, a: Area)
    requires Sorted(areas) && WellFormed(a) && Clear(areas, a.start, a.end)
    ensures var r := Insert(areas, a);
            && Sorted(r) && |r| == |areas| + 1 && TotalSize(r) == TotalSize(areas) + Size(a)
            && (forall v: nat :: AttrOf(r, v) == if Contains(a, v) then Some(AttrIn(a, v)) else AttrOf(areas, v))
            && (forall x :: x in r <==> x in areas || x == a)
    ensures Insert(areas, a)[0].start == if areas == [] || a.start < areas[0].start then a.start else areas[0].start
  {
    if areas == [] || a.start < areas[0].start {
      var r := [a] + areas;
      forall v: nat
        ensures AttrOf(r, v) == if Contains(a, v) then Some(AttrIn(a, v)) else AttrOf(areas, v)
      {
        AttrOfConcat([a], areas, v);
      }
      TotalSizeConcat([a], areas);
      assert [a][1..] == [];
    } else {
      var tail := areas[1..];
      SortedTail(areas);
      assert forall i :: 0 <= i < |tail| ==> tail[i] == areas[i + 1];
      InsertKeeps(tail, a);
      InsertStep(areas, a, Insert(tail, a));
    }
  }

  lemma InsertStep(areas: seq<Area>, a: Area, rest: seq<Area>)
    requires Sorted(areas) && areas != [] && WellFormed(a) && areas[0].end <= a.start
    requires Sorted(rest) && rest != [] && TotalSize(rest) == TotalSize(areas[1..]) + Size(a) && |rest| == |areas|
    requires rest[0].start == if |areas| == 1 || a.start < areas[1].start then a.start else areas[1].start
    requires forall v: nat :: AttrOf(rest, v) == if Contains(a, v) then Some(AttrIn(a, v)) else AttrOf(areas[1..], v)
    requires forall x :: x in rest <==> x in areas[1..] || x == a
    ensures var r := [areas[0]] + rest;
            && Sorted(r) && TotalSize(r) == TotalSize(areas) + Size(a)
            && (forall v: nat :: AttrOf(r, v) == if Contains(a, v) then Some(AttrIn(a, v)) else AttrOf(areas, v))
            && (forall x :: x in r <==> x in areas || x == a)
  {
    var r := [areas[0]] + rest;
    assert areas == [areas[0]] + areas[1..];
    forall v: nat
      ensures AttrOf(r, v) == if Contains(a, v) then Some(AttrIn(a, v)) else AttrOf(areas, v)
    {
      AttrOfConcat([areas[0]], rest, v);
      AttrOfConcat([areas[0]], areas[1..], v);
    }
    TotalSizeConcat([areas[0]], rest);
    assert forall i :: 0 < i < |r| ==> r[i] == rest[i - 1] && rest[0].start <= r[i].start;
    assert areas[0].end <= rest[0].start;
  }

  function Remove(areas: seq<Area>, i: nat): seq<Area>
    requires i < |areas|
  {
    areas[..i] + areas[i + 1..]
  }

  lemma RemoveSorted(areas: seq<Area>, i: nat)
    requires Sorted(areas) && i < |areas|
    ensures Sorted(Remove(areas, i))
  {
    var r := Remove(areas, i);
    assert forall k :: 0 <= k < |r| ==> r[k] == areas[if k < i then k else k + 1];
  }

  lemma RemoveSize(areas: seq<Area>, i: nat)
    requires i < |areas|
    ensures TotalSize(Remove(areas, i)) == TotalSize(areas) - Size(areas[i])
  {
    hide TotalSize;
    TotalSizeOne(areas[i]);
    assert areas == areas[..i] + [areas[i]] + areas[i + 1..];
    TotalSizeConcat(areas[..i], areas[i + 1..]);
    TotalSizeConcat(areas[..i] + [areas[i]], areas[i + 1..]);
    TotalSizeConcat(areas[..i], [areas[i]]);
  }

  /** Removing an area takes the attributes from its addresses and from no others. */
  lemma RemoveKeeps(areas: seq<Area>, i: nat)
    requires Sorted(areas) && i < |areas|
    ensures var r := Remove(areas, i);
            && Sorted(r) && TotalSize(r) == TotalSize(areas) - Size(areas[i])
            && (forall v: nat :: AttrOf(r, v) == if Contains(areas[i], v) then None else AttrOf(areas, v))
  {
    RemoveSorted(areas, i);
    RemoveSize(areas, i);
    forall v: nat
      ensures AttrOf(Remove(areas, i), v) == if Contains(areas[i], v) then None else AttrOf(areas, v)
    {
      RemoveMeans(areas, i, v);
    }
  }

  lemma RemoveMeans(areas: seq<Area>, i: nat, v: nat)
    requires Sorted(areas) && i < |areas|
    ensures AttrOf(Remove(areas, i), v) == if Contains(areas[i], v) then None else AttrOf(areas, v)
  {
    var r := Remove(areas, i);
    assert areas == areas[..i] + [areas[i]] + areas[i + 1..];
    AttrOfConcat(areas[..i], areas[i + 1..], v);
    AttrOfConcat(areas[..i] + [areas[i]], areas[i + 1..], v);
    AttrOfConcat(areas[..i], [areas[i]], v);
    if Contains(areas[i], v) {
      AttrOfSome(r, v);
      assert forall k :: 0 <= k < |r| ==> r[k] == areas[if k < i then k else k + 1];
    }
  }

  // ---------------------------------------------------------------- first fit

  const USER_SEARCH_START: nat := 0x1000
  const USER_SEARCH_END: nat := 0x7FFF_FFFF_F000
  const KERNEL_SEARCH_START: nat := 0xFFFF_9000_0000_0000
  const KERNEL_SEARCH_END: nat := 0xFFFF_FFFF_8000_0000

  function SearchStart(user: bool): nat {
    if user then USER_SEARCH_START else KERNEL_SEARCH_START
  }

  function SearchEnd(user: bool): nat {
    if user then USER_SEARCH_END else KERNEL_SEARCH_END
  }

  /** A place for `size` bytes: inside the window and clear of every area. */
  ghost predicate Fits(areas: seq<Area>, at: nat, size: nat, user: bool) {
    && SearchStart(user) <= at && at + size <= SearchEnd(user)
    && Clear(areas, at, at + size)
  }

  /** vmm_find_free_area: over a list that ends inside the window the result is the lowest place that
      fits, and 0 says that there is none. An empty list is not measured against the window. */
  method FindFree(areas: seq<Area>, size: nat, user: bool) returns (at: nat)
    requires Sorted(areas)
    requires forall i :: 0 <= i < |areas| ==> SearchStart(user) <= areas[i].end <= SearchEnd(user)
    ensures areas == [] ==> at == SearchStart(user)
    ensures areas != [] && at != 0 ==>
              Fits(areas, at, AlignUp(size), user) && forall b: nat :: Fits(areas, b, AlignUp(size), user) ==> at <= b
    ensures areas != [] && at == 0 ==> forall b: nat :: !Fits(areas, b, AlignUp(size), user)
    ensures Aligned(at)
  {
    var start, end, need := SearchStart(user), SearchEnd(user), AlignUp(size);
    if areas == [] {
      return start;
    }
    if areas[0].start >= start + need {
      return start;
    }
    var i := 0;
    while i + 1 < |areas|
      invariant 0 <= i < |areas|
      invariant forall b: nat :: Fits(areas, b, need, user) ==> areas[i].end <= b
    {
      if areas[i + 1].start - areas[i].end >= need {
        return areas[i].end;
      }
      i := i + 1;
    }
    if end - areas[i].end >= need {
      return areas[i].end;
    }
    at := 0;
  }

  /** On an empty list the result fits exactly when the request fits into the whole window. */
  lemma EmptyListFits(size: nat, user: bool)
    ensures Fits([], SearchStart(user), AlignUp(size), user) <==> AlignUp(size) <= SearchEnd(user) - SearchStart(user)
    ensures !Fits([], SearchStart(true), AlignUp(USER_SEARCH_END), true)
  {
  }
}
