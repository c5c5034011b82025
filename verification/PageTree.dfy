/** The radix tree that the memory management unit walks, as a value: table frames and their entries.

    `place` gives every table frame the sequence of indices that leads to it from the root. Because it
    is a function of the frame, a tree with a `place` shares no table between two slots.
 */
module PageTree {
  import opened Options

  const ENTRIES: nat := 512
  /** Slots of the root below this one belong to the address space; the others are the shared kernel half. */
  const USER_SLOTS: nat := 256
  const USER_END: nat := 0x8000_0000_0000
  const PAGE_SIZE: nat := 4096

  /** The bits of an entry that the code tests or sets. */
  datatype Flags = Flags(present: bool, writable: bool, user: bool, nocache: bool, global: bool, cow: bool, nx: bool)

  datatype Pte = Pte(addr: nat, flags: Flags)

  const ABSENT := Pte(0, Flags(false, false, false, false, false, false, false))

  /** A table as memset leaves it. */
  function ZeroTable(): (t: seq<Pte>)
    ensures |t| == ENTRIES && forall i :: 0 <= i < ENTRIES ==> t[i] == ABSENT
  {
    seq(ENTRIES, i => ABSENT)
  }

  type Memory = map<nat, seq<Pte>>

  // ---------------------------------------------------------------- indices

  /** The four table indices of a virtual address, root first. */
  function Path(v: nat): (p: seq<nat>)
    ensures |p| == 4 && forall k :: 0 <= k < 4 ==> p[k] < ENTRIES
  {
    [v / 0x80_0000_0000 % 512, v / 0x4000_0000 % 512, v / 0x20_0000 % 512, v / 0x1000 % 512]
  }

  /** Addresses in the user half have a root index below USER_SLOTS, and their indices and page offset
      determine them. */
  lemma PathDetermines(v: nat)
    requires v < USER_END
    ensures Path(v)[0] < USER_SLOTS
    ensures v == (((Path(v)[0] * 512 + Path(v)[1]) * 512 + Path(v)[2]) * 512 + Path(v)[3]) * PAGE_SIZE + v % PAGE_SIZE
  {
    var n1 := v / 0x1000;
    var n2 := n1 / 512;
    var n3 := n2 / 512;
    assert v / 0x20_0000 == n2;
    assert v / 0x4000_0000 == n3;
    assert v / 0x80_0000_0000 == n3 / 512;
  }

  lemma PathInjective(a: nat, b: nat)
    requires a < USER_END && b < USER_END && Path(a) == Path(b)
    ensures a - a % PAGE_SIZE == b - b % PAGE_SIZE
  {
    PathDetermines(a);
    PathDetermines(b);
  }

  // ---------------------------------------------------------------- the walk

  /** The table that slot i of table f points to. */
  function Child(m: Memory, f: nat, i: nat): Option<nat> {
    if f in m && i < |m[f]| && m[f][i].flags.present then Some(m[f][i].addr) else None
  }

  /** The table reached from the root along a path of indices. */
  function Descend(m: Memory, root: nat, p: seq<nat>): Option<nat> {
    if p == [] then Some(root)
    else
      var above := Descend(m, root, p[..|p| - 1]);
      if above.None? then None else Child(m, above.value, p[|p| - 1])
  }

  /** What the hardware finds for a full path: a present entry, or nothing. */
  function Translate(m: Memory, root: nat, p: seq<nat>): Option<Pte>
    requires |p| == 4
  {
    var leaf := Descend(m, root, p[..3]);
    if leaf.Some? && leaf.value in m && p[3] < |m[leaf.value]| && m[leaf.value][p[3]].flags.present
    then Some(m[leaf.value][p[3]])
    else None
  }

  predicate UserPath(p: seq<nat>) {
    && |p| <= 4
    && (forall k :: 0 <= k < |p| ==> p[k] < ENTRIES)
    && (p != [] ==> p[0] < USER_SLOTS)
  }

  /** Slot i of table f is part of the tree: not in the kernel half of the root. */
  predicate UserSlot(root: nat, f: nat, i: nat) {
    i < ENTRIES && (f == root ==> i < USER_SLOTS)
  }

  ghost predicate Tree(m: Memory, root: nat, place: map<nat, seq<nat>>) {
    && m.Keys == place.Keys
    && root in place
    && (forall f :: f in place ==> |m[f]| == ENTRIES && |place[f]| <= 3 && UserPath(place[f]))
    && (forall f :: f in place ==> (place[f] == [] <==> f == root))
    && (forall f, i: nat :: f in place && |place[f]| < 3 && UserSlot(root, f, i) && m[f][i].flags.present ==>
          m[f][i].addr in place && place[m[f][i].addr] == place[f] + [i])
  }

  /** Every table is reached from the root along its place. */
  ghost predicate Connected(m: Memory, root: nat, place: map<nat, seq<nat>>) {
    forall f :: f in place ==> Descend(m, root, place[f]) == Some(f)
  }

  /** A table that is reached along a path has that path as its place. */
  lemma {:induction false} DescendPlace(m: Memory, root: nat, place: map<nat, seq<nat>>, p: seq<nat>)
    requires Tree(m, root, place) && UserPath(p) && |p| <= 3
    ensures var d := Descend(m, root, p); d.Some? ==> d.value in place && place[d.value] == p
  {
    if p != [] {
      var above, i := p[..|p| - 1], p[|p| - 1];
      DescendPlace(m, root, place, above);
      var f := Descend(m, root, above);
      if f.Some? && Child(m, f.value, i).Some? {
        assert |above| == 0 ==> f.value == root;
        assert UserSlot(root, f.value, i);
        assert above + [i] == p;
      }
    }
  }

  // ---------------------------------------------------------------- the three kinds of update

  /** Memory m' differs from m only in slot i of table f. */
  ghost predicate SlotUpdated(m: Memory, m': Memory, f: nat, i: nat, e: Pte) {
    f in m && i < |m[f]| && m' == m[f := m[f][i := e]]
  }

  /** Writing a leaf entry moves no table. */
  lemma {:induction false} LeafUpdateDescend(m: Memory, m': Memory, root: nat, place: map<nat, seq<nat>>, f: nat,
                                             i: nat, e: Pte, p: seq<nat>)
    requires Tree(m, root, place) && UserPath(p) && |p| <= 3
    requires SlotUpdated(m, m', f, i, e) && f in place && |place[f]| == 3
    ensures Descend(m', root, p) == Descend(m, root, p)
  {
    if p != [] {
      var above := p[..|p| - 1];
      LeafUpdateDescend(m, m', root, place, f, i, e, above);
      DescendPlace(m, root, place, above);
    }
  }

  /** Writing a leaf entry changes the translation of exactly one path. */
  lemma LeafUpdate(m: Memory, m': Memory, root: nat, place: map<nat, seq<nat>>, f: nat, i: nat, e: Pte)
    requires Tree(m, root, place)
    requires SlotUpdated(m, m', f, i, e) && f in place && |place[f]| == 3
    requires Connected(m, root, place)
    ensures Tree(m', root, place) && Connected(m', root, place)
    ensures forall p :: UserPath(p) && |p| == 4 ==>
              Translate(m', root, p)
              == if p != place[f] + [i] then Translate(m, root, p) else if e.flags.present then Some(e) else None
  {
    forall p | UserPath(p) && |p| <= 3
      ensures Descend(m', root, p) == Descend(m, root, p)
    {
      LeafUpdateDescend(m, m', root, place, f, i, e, p);
    }
    forall p | UserPath(p) && |p| == 4
      ensures Translate(m', root, p)
              == if p != place[f] + [i] then Translate(m, root, p) else if e.flags.present then Some(e) else None
    {
      LeafUpdateTranslate(m, m', root, place, f, i, e, p);
    }
  }

  lemma LeafUpdateTranslate(m: Memory, m': Memory, root: nat, place: map<nat, seq<nat>>, f: nat, i: nat, e: Pte,
                            p: seq<nat>)
    requires Tree(m, root, place) && UserPath(p) && |p| == 4
    requires SlotUpdated(m, m', f, i, e) && f in place && |place[f]| == 3
    requires Connected(m, root, place)
    ensures Translate(m', root, p)
            == if p != place[f] + [i] then Translate(m, root, p) else if e.flags.present then Some(e) else None
  {
    LeafUpdateDescend(m, m', root, place, f, i, e, p[..3]);
    DescendPlace(m, root, place, p[..3]);
    assert p == p[..3] + [p[3]];
    if p == place[f] + [i] {
      assert p[..3] == place[f];
    }
  }

  /** Clearing the no-execute bit of an intermediate entry leaves the walk alone. */
  lemma {:induction false} SameChildDescend(m: Memory, m': Memory, root: nat, f: nat, i: nat, e: Pte, p: seq<nat>)
    requires SlotUpdated(m, m', f, i, e)
    requires m[f][i].flags.present && e.flags.present && e.addr == m[f][i].addr
    ensures Descend(m', root, p) == Descend(m, root, p)
  {
    if p != [] {
      SameChildDescend(m, m', root, f, i, e, p[..|p| - 1]);
    }
  }

  lemma SameChildUpdate(m: Memory, m': Memory, root: nat, place: map<nat, seq<nat>>, f: nat, i: nat, e: Pte)
    requires Tree(m, root, place) && Connected(m, root, place)
    requires SlotUpdated(m, m', f, i, e) && f in place && |place[f]| < 3 && UserSlot(root, f, i)
    requires m[f][i].flags.present && e.flags.present && e.addr == m[f][i].addr
    ensures Tree(m', root, place) && Connected(m', root, place)
    ensures forall p :: UserPath(p) && |p| == 4 ==> Translate(m', root, p) == Translate(m, root, p)
  {
    forall p
      ensures Descend(m', root, p) == Descend(m, root, p)
    {
      SameChildDescend(m, m', root, f, i, e, p);
    }
    forall p | UserPath(p) && |p| == 4
      ensures Translate(m', root, p) == Translate(m, root, p)
    {
      SameChildTranslate(m, m', root, place, f, i, e, p);
    }
  }

  lemma SameChildTranslate(m: Memory, m': Memory, root: nat, place: map<nat, seq<nat>>, f: nat, i: nat, e: Pte,
                           p: seq<nat>)
    requires Tree(m, root, place) && UserPath(p) && |p| == 4
    requires SlotUpdated(m, m', f, i, e) && f in place && |place[f]| < 3
    requires m[f][i].flags.present && e.flags.present && e.addr == m[f][i].addr
    ensures Translate(m', root, p) == Translate(m, root, p)
  {
    assert UserPath(p[..3]);
    SameChildDescend(m, m', root, f, i, e, p[..3]);
    DescendPlace(m, root, place, p[..3]);
  }

  /** Memory m' has a fresh zeroed table g hung into the absent slot i of table f. */
  ghost predicate TableAdded(m: Memory, m': Memory, f: nat, i: nat, g: nat, flags: Flags) {
    && f in m && i < |m[f]| && g !in m && flags.present
    && m' == m[f := m[f][i := Pte(g, flags)]][g := ZeroTable()]
  }

  lemma ChildAdded(m: Memory, m': Memory, f: nat, i: nat, g: nat, flags: Flags, h: nat, k: nat)
    requires TableAdded(m, m', f, i, g, flags) && f != g
    ensures Child(m', h, k) == if h == g then None else if h == f && k == i then Some(g) else Child(m, h, k)
  {
  }

  /** The slot that received a table, seen from the walk: one more path is reached, to a table with
      nothing below it. */
  lemma {:induction false} AddTableDescend(m: Memory, m': Memory, root: nat, place: map<nat, seq<nat>>, f: nat,
                                           i: nat, g: nat, flags: Flags, p: seq<nat>)
    requires Tree(m, root, place) && UserPath(p) && |p| <= 3
    requires f in place && |place[f]| < 3 && UserSlot(root, f, i) && !m[f][i].flags.present
    requires TableAdded(m, m', f, i, g, flags)
    requires Descend(m, root, place[f]) == Some(f)
    ensures Descend(m', root, p) == if p == place[f] + [i] then Some(g) else Descend(m, root, p)
    ensures p == place[f] + [i] ==> Descend(m, root, p) == None
  {
    if p != [] {
      var above, last := p[..|p| - 1], p[|p| - 1];
      var q := place[f] + [i];
      AddTableDescend(m, m', root, place, f, i, g, flags, above);
      DescendPlace(m, root, place, above);
      assert p == above + [last];
      var d := Descend(m, root, above);
      if above == q {
        ChildAdded(m, m', f, i, g, flags, g, last);
        assert p != q;
      } else if d.Some? {
        ChildAdded(m, m', f, i, g, flags, d.value, last);
        assert d.value == f && last == i <==> p == q;
      } else {
        assert p != q;
      }
    }
  }

  lemma AddTableTree(m: Memory, m': Memory, root: nat, place: map<nat, seq<nat>>, f: nat, i: nat, g: nat, flags: Flags)
    requires Tree(m, root, place)
    requires f in place && |place[f]| < 3 && UserSlot(root, f, i) && !m[f][i].flags.present
    requires TableAdded(m, m', f, i, g, flags)
    ensures Tree(m', root, place[g := place[f] + [i]])
  {
    var q := place[f] + [i];
    var place' := place[g := q];
    assert UserPath(q);
    forall h, k: nat | h in place' && |place'[h]| < 3 && UserSlot(root, h, k) && m'[h][k].flags.present
      ensures m'[h][k].addr in place' && place'[m'[h][k].addr] == place'[h] + [k]
    {
      assert h != g;
      if h != f || k != i {
        assert m'[h][k] == m[h][k];
      }
    }
  }

  /** Hanging an empty table into the tree changes no translation. */
  lemma AddTable(m: Memory, m': Memory, root: nat, place: map<nat, seq<nat>>, f: nat, i: nat, g: nat, flags: Flags)
    requires Tree(m, root, place) && Connected(m, root, place)
    requires f in place && |place[f]| < 3 && UserSlot(root, f, i) && !m[f][i].flags.present
    requires TableAdded(m, m', f, i, g, flags)
    ensures Tree(m', root, place[g := place[f] + [i]]) && Connected(m', root, place[g := place[f] + [i]])
    ensures forall p :: UserPath(p) && |p| == 4 ==> Translate(m', root, p) == Translate(m, root, p)
  {
    AddTableTree(m, m', root, place, f, i, g, flags);
    var place' := place[g := place[f] + [i]];
    assert UserPath(place[f] + [i]);
    forall h | h in place'
      ensures Descend(m', root, place'[h]) == Some(h)
    {
      AddTableDescend(m, m', root, place, f, i, g, flags, place'[h]);
    }
    forall p | UserPath(p) && |p| == 4
      ensures Translate(m', root, p) == Translate(m, root, p)
    {
      AddTableTranslate(m, m', root, place, f, i, g, flags, p);
    }
  }

  lemma AddTableTranslate(m: Memory, m': Memory, root: nat, place: map<nat, seq<nat>>, f: nat, i: nat, g: nat,
                          flags: Flags, p: seq<nat>)
    requires Tree(m, root, place) && UserPath(p) && |p| == 4
    requires f in place && |place[f]| < 3 && UserSlot(root, f, i) && !m[f][i].flags.present
    requires TableAdded(m, m', f, i, g, flags)
    requires Descend(m, root, place[f]) == Some(f)
    ensures Translate(m', root, p) == Translate(m, root, p)
  {
    AddTableDescend(m, m', root, place, f, i, g, flags, p[..3]);
    DescendPlace(m, root, place, p[..3]);
  }
}
