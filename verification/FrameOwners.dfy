/** Who owns which frame: every managed frame is free, or holds one table, or holds one area descriptor,
    or backs one page of an anonymous area. */
module FrameOwners {
  import opened Options
  import opened FrameAllocator
  import opened PageTree
  import opened PageTables
  import opened Areas
  import opened AreaForms

  /** What decides ownership: the areas, the translations, and the frames in use and not in use. */
  datatype View = View(areas: seq<Area>, flat: map<nat, Pte>, tables: set<nat>, free: set<nat>, managed: set<nat>)

  predicate HasKind(areas: seq<Area>, v: nat, kind: Kind) {
    var a := AttrOf(areas, v);
    a.Some? && a.value.kind == kind
  }

  /** The physical address that a physical mapping gives to an address. */
  function PhysOf(areas: seq<Area>, v: nat): Option<nat> {
    if AttrOf(areas, v).Some? then AttrOf(areas, v).value.phys else None
  }

  ghost function Nodes(areas: seq<Area>): set<nat> {
    set a | a in areas :: a.node
  }

  ghost predicate DistinctNodes(areas: seq<Area>) {
    forall i, j :: 0 <= i < j < |areas| ==> areas[i].node != areas[j].node
  }

  /** The frames that back pages of anonymous areas. */
  ghost function Data(w: View): set<nat> {
    set v | v in w.flat && HasKind(w.areas, v, Anon) :: w.flat[v].addr
  }

  ghost function Owned(w: View): set<nat> {
    Nodes(w.areas) + Data(w) + w.tables
  }

  /** A page of an anonymous area is backed by a frame of its own. */
  ghost predicate OwnsPage(w: View, v: nat)
    requires v in w.flat
  {
    var f := w.flat[v].addr;
    && f in w.managed && f !in w.free && f !in w.tables && f !in Nodes(w.areas)
    && (forall u :: u in w.flat && u != v && HasKind(w.areas, u, Anon) ==> w.flat[u].addr != f)
  }

  ghost predicate Owners(w: View) {
    && w.free <= w.managed
    && w.tables <= w.managed - w.free
    && DistinctNodes(w.areas)
    && Nodes(w.areas) <= w.managed - w.free - w.tables
    && (forall v :: v in w.flat ==> AttrOf(w.areas, v).Some?)
    && (forall v :: v in w.flat && HasKind(w.areas, v, Anon) ==> OwnsPage(w, v))
    && (forall v :: v in w.flat && PhysOf(w.areas, v).Some? ==>
          w.flat[v].addr == EntryAddr(PhysOf(w.areas, v).value))
  }

  /** Nothing is lost and nothing appears: the free and the owned frames together stay the same. */
  ghost predicate Conserved(w: View, w': View) {
    && w'.managed == w.managed
    && w'.free + Owned(w') == w.free + Owned(w)
  }

  // ---------------------------------------------------------------- one change at a time

  /** New tables take free frames. */
  lemma TablesGrow(w: View, tables: set<nat>, free: set<nat>)
    requires Owners(w)
    requires w.tables <= tables && free <= w.free && tables - w.tables == w.free - free
    ensures var w' := w.(tables := tables, free := free); Owners(w') && Conserved(w, w')
  {
    var w' := w.(tables := tables, free := free);
    forall f
      ensures f in tables <==> f in w.tables || (f in w.free && f !in free)
    {
      assert f in tables - w.tables <==> f in w.free - free;
    }
    assert Data(w') == Data(w);
    forall v | v in w'.flat && HasKind(w'.areas, v, Anon)
      ensures OwnsPage(w', v)
    {
      assert OwnsPage(w, v);
    }
  }

  /** A free frame becomes the backing of a page. */
  lemma PageTaken(w: View, v: nat, e: Pte)
    requires Owners(w) && HasKind(w.areas, v, Anon) && v !in w.flat && e.addr in w.free
    ensures var w' := w.(flat := w.flat[v := e], free := w.free - {e.addr}); Owners(w') && Conserved(w, w')
  {
    var w' := w.(flat := w.flat[v := e], free := w.free - {e.addr});
    forall u | u in w'.flat && HasKind(w'.areas, u, Anon)
      ensures OwnsPage(w', u)
    {
      assert u != v ==> OwnsPage(w, u);
    }
    forall f
      ensures f in Data(w') <==> f in Data(w) || f == e.addr
    {
      if f in Data(w) {
        var u :| u in w.flat && HasKind(w.areas, u, Anon) && w.flat[u].addr == f;
        assert w'.flat[u].addr == f;
      }
      assert w'.flat[v].addr == e.addr;
    }
    assert Data(w') == Data(w) + {e.addr};
  }

  /** The backing of a page becomes free when its translation goes. */
  lemma PageReturned(w: View, v: nat)
    requires Owners(w) && v in w.flat && HasKind(w.areas, v, Anon)
    ensures var w' := w.(flat := w.flat - {v}, free := w.free + {w.flat[v].addr}); Owners(w') && Conserved(w, w')
    ensures w.flat[v].addr in w.managed && w.flat[v].addr !in w.free
  {
    var w' := w.(flat := w.flat - {v}, free := w.free + {w.flat[v].addr});
    assert OwnsPage(w, v);
    forall u | u in w'.flat && HasKind(w'.areas, u, Anon)
      ensures OwnsPage(w', u)
    {
      assert OwnsPage(w, u);
    }
    forall f
      ensures f in Data(w) <==> f in Data(w') || f == w.flat[v].addr
    {
      if f in Data(w) && f != w.flat[v].addr {
        var u :| u in w.flat && HasKind(w.areas, u, Anon) && w.flat[u].addr == f;
        assert u in w'.flat && w'.flat[u].addr == f;
      }
    }
    assert Data(w) == Data(w') + {w.flat[v].addr};
  }

  /** The frames that the pages of [from, to) are translated to. */
  ghost function FramesIn(flat: map<nat, Pte>, from: nat, to: nat): set<nat> {
    set v | v in flat && from <= v < to :: flat[v].addr
  }

  ghost function FlatOutside(flat: map<nat, Pte>, from: nat, to: nat): map<nat, Pte> {
    map v | v in flat && !(from <= v < to) :: flat[v]
  }

  /** The same for all pages of a range of anonymous areas. */
  lemma PagesReturned(w: View, from: nat, to: nat)
    requires Owners(w)
    requires forall v :: v in w.flat && from <= v < to ==> HasKind(w.areas, v, Anon)
    ensures var w' := w.(flat := FlatOutside(w.flat, from, to), free := w.free + FramesIn(w.flat, from, to));
            Owners(w') && Conserved(w, w')
    ensures FramesIn(w.flat, from, to) <= w.managed - w.free - w.tables
  {
    hide AttrOf;
    var gone := FramesIn(w.flat, from, to);
    var w' := w.(flat := FlatOutside(w.flat, from, to), free := w.free + gone);
    forall f | f in gone
      ensures f in w.managed - w.free - w.tables - Nodes(w.areas)
    {
      var v :| v in w.flat && from <= v < to && w.flat[v].addr == f;
      assert OwnsPage(w, v);
    }
    forall u | u in w'.flat && HasKind(w'.areas, u, Anon)
      ensures OwnsPage(w', u)
    {
      assert OwnsPage(w, u);
    }
    forall f
      ensures f in Data(w) <==> f in Data(w') || f in gone
    {
      if f in Data(w) {
        var u :| u in w.flat && HasKind(w.areas, u, Anon) && w.flat[u].addr == f;
        assert u in w'.flat ==> w'.flat[u].addr == f;
      }
    }
    assert Data(w) == Data(w') + gone;
  }

  /** A frame of a page outside the part already returned has not been returned. */
  lemma NotYetReturned(w: View, from: nat, v: nat)
    requires Owners(w) && v in w.flat && from <= v
    requires forall u :: u in w.flat && from <= u <= v ==> HasKind(w.areas, u, Anon)
    ensures w.flat[v].addr !in FramesIn(w.flat, from, v)
  {
    assert OwnsPage(w, v);
  }

  /** Dropping the translations of a range without anonymous pages changes no owner. */
  lemma PagesDropped(w: View, from: nat, to: nat)
    requires Owners(w)
    requires forall v :: v in w.flat && from <= v < to ==> !HasKind(w.areas, v, Anon)
    ensures var w' := w.(flat := FlatOutside(w.flat, from, to)); Owners(w') && Conserved(w, w')
  {
    hide AttrOf;
    var w' := w.(flat := FlatOutside(w.flat, from, to));
    forall u | u in w'.flat && HasKind(w'.areas, u, Anon)
      ensures OwnsPage(w', u)
    {
      assert OwnsPage(w, u);
    }
    forall f
      ensures f in Data(w) <==> f in Data(w')
    {
      if f in Data(w) {
        var u :| u in w.flat && HasKind(w.areas, u, Anon) && w.flat[u].addr == f;
        assert u in w'.flat && w'.flat[u].addr == f;
      }
    }
    assert Data(w) == Data(w');
  }

  lemma FramesExtend(flat: map<nat, Pte>, from: nat, v: nat)
    requires forall u :: u in flat ==> IsPage(u)
    requires from <= v && Aligned(v)
    ensures FramesIn(flat, from, v + FrameAllocator.PAGE_SIZE)
            == FramesIn(flat, from, v) + (if v in flat then {flat[v].addr} else {})
    ensures FramesIn(flat, from, from) == {}
  {
    var more := FramesIn(flat, from, v + FrameAllocator.PAGE_SIZE);
    forall f | f in more
      ensures f in FramesIn(flat, from, v) || (v in flat && f == flat[v].addr)
    {
      var u :| u in flat && from <= u < v + FrameAllocator.PAGE_SIZE && flat[u].addr == f;
      assert IsPage(u);
      assert u < v || u == v;
    }
    assert v in flat ==> flat[v].addr in more;
  }

  lemma OutsideIsMinusPages(flat: map<nat, Pte>, from: nat, to: nat)
    requires forall u :: u in flat ==> IsPage(u)
    ensures FlatOutside(flat, from, to) == flat - Pages(from, to)
  {
    assert forall u :: u in flat ==> (u in Pages(from, to) <==> from <= u < to);
  }

  /** Translations of pages that are not anonymous own nothing. */
  lemma SharedPageChanged(w: View, v: nat, flat: map<nat, Pte>)
    requires Owners(w) && !HasKind(w.areas, v, Anon)
    requires flat - {v} == w.flat - {v}
    requires v in flat ==> AttrOf(w.areas, v).Some?
    requires v in flat && PhysOf(w.areas, v).Some? ==> flat[v].addr == EntryAddr(PhysOf(w.areas, v).value)
    ensures var w' := w.(flat := flat); Owners(w') && Conserved(w, w')
  {
    var w' := w.(flat := flat);
    forall u | u != v
      ensures u in flat <==> u in w.flat
      ensures u in flat ==> flat[u] == w.flat[u]
    {
      assert u in flat <==> u in flat - {v};
      assert u in w.flat <==> u in w.flat - {v};
      assert u in flat ==> flat[u] == (flat - {v})[u] == (w.flat - {v})[u];
    }
    forall u | u in w'.flat && HasKind(w'.areas, u, Anon)
      ensures OwnsPage(w', u)
    {
      assert OwnsPage(w, u);
    }
    assert Data(w') == Data(w);
  }

  // ---------------------------------------------------------------- descriptors

  lemma NodesOf(areas: seq<Area>, areas': seq<Area>, a: Area)
    requires forall x :: x in areas' <==> x in areas || x == a
    ensures Nodes(areas') == Nodes(areas) + {a.node}
  {
    forall f
      ensures f in Nodes(areas') <==> f in Nodes(areas) || f == a.node
    {
      if f in Nodes(areas') {
        var x :| x in areas' && x.node == f;
      }
      if f in Nodes(areas) {
        var x :| x in areas && x.node == f;
        assert x in areas';
      }
      assert a in areas';
    }
  }

  /** Inserting keeps the nodes distinct. */
  lemma {:induction false} InsertDistinct(areas: seq<Area>, a: Area)
    requires DistinctNodes(areas) && a.node !in Nodes(areas)
    ensures DistinctNodes(Insert(areas, a))
    ensures forall x :: x in Insert(areas, a) ==> x in areas || x == a
  {
    if areas == [] || a.start < areas[0].start {
      var r := [a] + areas;
      forall i, j | 0 <= i < j < |r|
        ensures r[i].node != r[j].node
      {
        assert r[j] == areas[j - 1] && areas[j - 1] in areas;
      }
    } else {
      var tail := areas[1..];
      assert forall i :: 0 <= i < |tail| ==> tail[i] == areas[i + 1];
      assert areas[0] in areas && areas[0].node != a.node;
      InsertDistinct(tail, a);
      var r := [areas[0]] + Insert(tail, a);
      forall i, j | 0 <= i < j < |r|
        ensures r[i].node != r[j].node
      {
        if i == 0 {
          assert r[j] in Insert(tail, a);
        } else {
          assert r[i] == Insert(tail, a)[i - 1] && r[j] == Insert(tail, a)[j - 1];
        }
      }
    }
  }

  /** Pages keep their backing when their attributes stay and no frame of theirs is given away. */
  lemma SameOwnPages(w: View, w': View)
    requires Owners(w) && w'.flat == w.flat && w'.managed == w.managed
    requires forall v :: v in w.flat ==> AttrOf(w'.areas, v) == AttrOf(w.areas, v)
    requires w'.tables == w.tables && w'.free * Data(w) == {} && Nodes(w'.areas) * Data(w) == {}
    ensures Data(w') == Data(w)
    ensures forall v :: v in w'.flat && HasKind(w'.areas, v, Anon) ==> OwnsPage(w', v)
  {
    assert Data(w') == Data(w);
    forall v | v in w'.flat && HasKind(w'.areas, v, Anon)
      ensures OwnsPage(w', v)
    {
      assert OwnsPage(w, v);
      assert w.flat[v].addr in Data(w);
      assert w.flat[v].addr !in w'.free * Data(w) && w.flat[v].addr !in Nodes(w'.areas) * Data(w);
    }
  }

  /** What is not free and not a table nor a descriptor is apart from the data frames. */
  lemma DataApart(w: View)
    requires Owners(w)
    ensures Data(w) <= w.managed - w.free - w.tables - Nodes(w.areas)
  {
    forall f | f in Data(w)
      ensures f in w.managed - w.free - w.tables - Nodes(w.areas)
    {
      var v :| v in w.flat && HasKind(w.areas, v, Anon) && w.flat[v].addr == f;
      assert OwnsPage(w, v);
    }
  }

  lemma NoTranslationInClear(w: View, from: nat, to: nat)
    requires Owners(w) && Clear(w.areas, from, to)
    ensures forall v :: v in w.flat ==> v < from || to <= v
  {
    forall v | v in w.flat
      ensures v < from || to <= v
    {
      AttrOfSome(w.areas, v);
    }
  }

  lemma RemoveNodes(areas: seq<Area>, i: nat)
    requires DistinctNodes(areas) && i < |areas|
    ensures DistinctNodes(Remove(areas, i))
    ensures Nodes(areas) == Nodes(Remove(areas, i)) + {areas[i].node}
    ensures areas[i].node !in Nodes(Remove(areas, i)) && areas[i].node in Nodes(areas)
  {
    var r := Remove(areas, i);
    assert forall k :: 0 <= k < |r| ==> r[k] == areas[if k < i then k else k + 1];
    assert areas[i] in areas;
    forall x | x in areas
      ensures x in r || x == areas[i]
    {
      var k :| 0 <= k < |areas| && areas[k] == x;
      assert k != i ==> r[if k < i then k else k - 1] == x;
    }
    assert forall x :: x in areas <==> x in r || x == areas[i];
    NodesOf(r, areas, areas[i]);
    forall x | x in r
      ensures x.node != areas[i].node
    {
      var k :| 0 <= k < |r| && r[k] == x;
      assert areas[if k < i then k else k + 1] == x;
    }
  }

  lemma NodesAt(areas: seq<Area>, k: nat, x: Area)
    requires k <= |areas| && DistinctNodes(areas) && x.node !in Nodes(areas)
    ensures DistinctNodes(areas[..k] + [x] + areas[k..])
    ensures Nodes(areas[..k] + [x] + areas[k..]) == Nodes(areas) + {x.node}
  {
    var r := areas[..k] + [x] + areas[k..];
    forall p | 0 <= p < |r| && p != k
      ensures r[p] == areas[if p < k then p else p - 1] && r[p].node != x.node
    {
      assert areas[if p < k then p else p - 1] in areas;
    }
    assert areas == areas[..k] + areas[k..];
    NodesOf(areas, r, x);
  }

  lemma SplitNodes(areas: seq<Area>, i: nat, at: nat, node: nat)
    requires i < |areas| && areas[i].start <= at
    requires DistinctNodes(areas) && node !in Nodes(areas)
    ensures DistinctNodes(SplitAt(areas, i, at, node))
    ensures Nodes(SplitAt(areas, i, at, node)) == Nodes(areas) + {node}
  {
    var s := SplitAt(areas, i, at, node);
    NodesAt(areas, i + 1, s[i + 1]);
    SameNodes(areas[..i + 1] + [s[i + 1]] + areas[i + 1..], s);
  }

  /** The list with the areas i and i + 1 joined, as one step of a merge pass leaves it. */
  function JoinAt(areas: seq<Area>, i: nat): seq<Area>
    requires i + 1 < |areas|
  {
    areas[..i] + [areas[i].(end := areas[i + 1].end)] + areas[i + 2..]
  }

  lemma JoinAtKeeps(areas: seq<Area>, i: nat)
    requires Sorted(areas) && i + 1 < |areas| && CanMerge(areas[i], areas[i + 1])
    ensures var j := JoinAt(areas, i);
            Sorted(j) && SameMeaning(j, areas) && TotalSize(j) == TotalSize(areas)
  {
    var tail := areas[i..];
    var joined := [areas[i].(end := areas[i + 1].end)] + areas[i + 2..];
    var j := JoinAt(areas, i);
    assert tail[2..] == areas[i + 2..] && areas == areas[..i] + tail && j == areas[..i] + joined;
    JoinKeeps(tail);
    forall v: nat
      ensures AttrOf(j, v) == AttrOf(areas, v)
    {
      AttrOfConcat(areas[..i], tail, v);
      AttrOfConcat(areas[..i], joined, v);
      assert AttrOf(joined, v) == AttrOf(tail, v);
    }
    TotalSizeConcat(areas[..i], tail);
    TotalSizeConcat(areas[..i], joined);
    JoinAtSorted(areas, i);
  }

  lemma JoinAtSorted(areas: seq<Area>, i: nat)
    requires Sorted(areas) && i + 1 < |areas|
    ensures Sorted(JoinAt(areas, i))
  {
    var j := JoinAt(areas, i);
    forall k | 0 <= k < |j|
      ensures j[k].start == areas[if k <= i then k else k + 1].start
      ensures j[k].end == areas[if k < i then k else k + 1].end
    {
    }
  }

  lemma SameNodes(a: seq<Area>, b: seq<Area>)
    requires |a| == |b| && forall k :: 0 <= k < |a| ==> a[k].node == b[k].node
    ensures Nodes(a) == Nodes(b) && DistinctNodes(a) == DistinctNodes(b)
  {
    forall f
      ensures f in Nodes(a) <==> f in Nodes(b)
    {
      if f in Nodes(a) {
        var x :| x in a && x.node == f;
        var k :| 0 <= k < |a| && a[k] == x;
        assert b[k] in b;
      }
      if f in Nodes(b) {
        var x :| x in b && x.node == f;
        var k :| 0 <= k < |b| && b[k] == x;
        assert a[k] in a;
      }
    }
  }

  // ---------------------------------------------------------------- changes of the list

  /** A change of the list that keeps the meaning of every translated page and exchanges descriptors for
      free frames keeps all owners. */
  lemma ListChanged(w: View, areas: seq<Area>, free: set<nat>)
    requires Owners(w)
    requires forall v :: v in w.flat ==> AttrOf(areas, v) == AttrOf(w.areas, v)
    requires DistinctNodes(areas)
    requires Nodes(areas) + free == Nodes(w.areas) + w.free && Nodes(areas) !! free
    ensures var w' := w.(areas := areas, free := free); Owners(w') && Conserved(w, w') && Data(w') == Data(w)
  {
    hide AttrOf;
    var w' := w.(areas := areas, free := free);
    DataApart(w);
    forall f | f in free || f in Nodes(areas)
      ensures f in w.managed && f !in Data(w) && f !in w.tables
    {
      assert f in Nodes(areas) + free;
    }
    SameOwnPages(w, w');
  }

  /** A new area over a clear range takes one free frame for its descriptor. */
  lemma AreaInserted(w: View, a: Area)
    requires Owners(w) && Sorted(w.areas) && WellFormed(a) && Clear(w.areas, a.start, a.end)
    requires a.node in w.free
    ensures var w' := w.(areas := Insert(w.areas, a), free := w.free - {a.node});
            Owners(w') && Conserved(w, w') && Data(w') == Data(w)
  {
    hide AttrOf;
    InsertKeeps(w.areas, a);
    InsertDistinct(w.areas, a);
    NodesOf(w.areas, Insert(w.areas, a), a);
    NoTranslationInClear(w, a.start, a.end);
    ListChanged(w, Insert(w.areas, a), w.free - {a.node});
  }

  /** Removing an area without translations gives its descriptor back. */
  lemma AreaRemoved(w: View, i: nat)
    requires Owners(w) && Sorted(w.areas) && i < |w.areas|
    requires forall v :: v in w.flat ==> !Contains(w.areas[i], v)
    ensures var w' := w.(areas := Remove(w.areas, i), free := w.free + {w.areas[i].node});
            Owners(w') && Conserved(w, w') && Data(w') == Data(w)
    ensures w.areas[i].node in w.managed - w.free - w.tables
  {
    hide AttrOf;
    RemoveKeeps(w.areas, i);
    RemoveNodes(w.areas, i);
    ListChanged(w, Remove(w.areas, i), w.free + {w.areas[i].node});
  }

  /** Splitting takes one free frame for the new descriptor. */
  lemma AreaSplit(w: View, i: nat, at: nat, node: nat)
    requires Owners(w) && Sorted(w.areas) && i < |w.areas| && w.areas[i].start < at < w.areas[i].end && Aligned(at)
    requires node in w.free
    ensures var w' := w.(areas := SplitAt(w.areas, i, at, node), free := w.free - {node});
            Owners(w') && Conserved(w, w') && Data(w') == Data(w)
  {
    hide AttrOf;
    SplitKeeps(w.areas, i, at, node);
    SplitNodes(w.areas, i, at, node);
    ListChanged(w, SplitAt(w.areas, i, at, node), w.free - {node});
  }

  /** Joining gives the descriptor of the second area back. */
  lemma AreaJoined(w: View, i: nat)
    requires Owners(w) && Sorted(w.areas) && i + 1 < |w.areas| && CanMerge(w.areas[i], w.areas[i + 1])
    ensures var w' := w.(areas := JoinAt(w.areas, i), free := w.free + {w.areas[i + 1].node});
            Owners(w') && Conserved(w, w') && Data(w') == Data(w)
    ensures w.areas[i + 1].node in w.managed - w.free - w.tables
  {
    hide AttrOf;
    JoinAtKeeps(w.areas, i);
    JoinNodes(w.areas, i);
    ListChanged(w, JoinAt(w.areas, i), w.free + {w.areas[i + 1].node});
  }

  lemma JoinNodes(areas: seq<Area>, i: nat)
    requires DistinctNodes(areas) && i + 1 < |areas|
    ensures DistinctNodes(JoinAt(areas, i))
    ensures Nodes(areas) == Nodes(JoinAt(areas, i)) + {areas[i + 1].node}
    ensures areas[i + 1].node !in Nodes(JoinAt(areas, i))
  {
    RemoveNodes(areas, i + 1);
    SameNodes(Remove(areas, i + 1), JoinAt(areas, i));
  }
}
