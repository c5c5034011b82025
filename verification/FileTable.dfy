/** Who refers to whom: directory entries and open files to vnodes, descriptors to open files; and what each
    small change does to the two reference counts. */
module FileTable {
  import opened Options

  type Byte = bv8

  const PROC_MAX_FDS: nat := 256

  /** A name in a directory. */
  datatype Entry = Entry(dir: nat, name: string)

  /** A regular file: its reference count and its bytes. */
  datatype Vnode = Vnode(refcount: nat, content: seq<Byte>)

  /** An open file: the vnode behind it and the number of descriptors for it. */
  datatype OpenFile = OpenFile(vnode: nat, refcount: nat, flags: nat)

  /** A descriptor; those of the standard streams have no file. */
  datatype Fde = Fde(file: Option<nat>, refcount: nat)

  ghost function Links(entries: map<Entry, nat>, v: nat): set<Entry> {
    set e | e in entries && entries[e] == v
  }

  ghost function Openers(files: map<nat, OpenFile>, v: nat): set<nat> {
    set f | f in files && files[f].vnode == v
  }

  ghost predicate Names(fds: seq<Option<Fde>>, i: int, f: nat) {
    0 <= i < |fds| && fds[i].Some? && fds[i].value.file == Some(f)
  }

  ghost function FdsOf(fds: seq<Option<Fde>>, f: nat): set<int> {
    set i | 0 <= i < |fds| && Names(fds, i, f)
  }

  /** Every vnode is counted once for each entry, for each open file and for each reference in flight. */
  ghost predicate VnodesCounted(vnodes: map<nat, Vnode>, entries: map<Entry, nat>, files: map<nat, OpenFile>,
                                held: multiset<nat>) {
    && (forall v :: v in vnodes ==> vnodes[v].refcount == |Links(entries, v)| + |Openers(files, v)| + held[v] > 0)
    && (forall e :: e in entries ==> entries[e] in vnodes)
    && (forall f :: f in files ==> files[f].vnode in vnodes)
    && (forall v :: v in held ==> v in vnodes)
  }

  /** Every open file is counted once for each descriptor and for each reference in flight. */
  ghost predicate FilesCounted(files: map<nat, OpenFile>, fds: seq<Option<Fde>>, held: multiset<nat>) {
    && (forall f :: f in files ==> files[f].refcount == |FdsOf(fds, f)| + held[f] > 0)
    && (forall i, f :: Names(fds, i, f) ==> f in files)
    && (forall f :: f in held ==> f in files)
    && (forall i :: 0 <= i < |fds| && fds[i].Some? ==> fds[i].value.refcount == 1)
  }

  // ---------------------------------------------------------------- vnodes

  /** Two ways to refer that agree on every count. */
  lemma SameVnodeCounts(vnodes: map<nat, Vnode>, entries: map<Entry, nat>, files: map<nat, OpenFile>,
                        held: multiset<nat>,
                        vnodes': map<nat, Vnode>, files': map<nat, OpenFile>)
    requires VnodesCounted(vnodes, entries, files, held)
    requires vnodes'.Keys == vnodes.Keys && files'.Keys == files.Keys
    requires forall v :: v in vnodes ==> vnodes'[v].refcount == vnodes[v].refcount
    requires forall f :: f in files ==> files'[f].vnode == files[f].vnode
    ensures VnodesCounted(vnodes', entries, files', held)
  {
    forall v
      ensures Openers(files', v) == Openers(files, v)
    {
      assert forall f :: f in files' <==> f in files;
    }
    assert forall v :: v in vnodes' <==> v in vnodes;
  }

  lemma NewVnode(vnodes: map<nat, Vnode>, entries: map<Entry, nat>, files: map<nat, OpenFile>, held: multiset<nat>,
                 v: nat, n: Vnode)
    requires VnodesCounted(vnodes, entries, files, held) && v !in vnodes && n.refcount == 1
    ensures VnodesCounted(vnodes[v := n], entries, files, held + multiset{v})
  {
    assert Links(entries, v) == {} && Openers(files, v) == {};
  }

  lemma RefVnode(vnodes: map<nat, Vnode>, entries: map<Entry, nat>, files: map<nat, OpenFile>, held: multiset<nat>,
                 v: nat)
    requires VnodesCounted(vnodes, entries, files, held) && v in vnodes
    ensures VnodesCounted(vnodes[v := vnodes[v].(refcount := vnodes[v].refcount + 1)], entries, files, held + multiset{v})
  {
  }

  lemma NobodyLeft(entries: map<Entry, nat>, files: map<nat, OpenFile>, v: nat)
    ensures |Links(entries, v)| == 0 <==> forall e :: e in entries ==> entries[e] != v
    ensures |Openers(files, v)| == 0 <==> forall f :: f in files ==> files[f].vnode != v
  {
    if |Links(entries, v)| == 0 {
      assert forall e :: e in entries && entries[e] == v ==> e in Links(entries, v);
    } else {
      var e :| e in Links(entries, v);
    }
    if |Openers(files, v)| == 0 {
      assert forall f :: f in files && files[f].vnode == v ==> f in Openers(files, v);
    } else {
      var f :| f in Openers(files, v);
    }
  }

  /** Dropping a reference in flight; with the last one the vnode goes. */
  lemma UnrefVnode(vnodes: map<nat, Vnode>, entries: map<Entry, nat>, files: map<nat, OpenFile>, held: multiset<nat>,
                   v: nat)
    requires VnodesCounted(vnodes, entries, files, held) && v in held
    ensures v in vnodes
    ensures vnodes[v].refcount > 1 ==>
              VnodesCounted(vnodes[v := vnodes[v].(refcount := vnodes[v].refcount - 1)], entries, files, held - multiset{v})
    ensures vnodes[v].refcount == 1 ==> VnodesCounted(vnodes - {v}, entries, files, held - multiset{v})
  {
    hide Links;
    hide Openers;
    NobodyLeft(entries, files, v);
  }

  lemma LinksAdded(entries: map<Entry, nat>, e: Entry, v: nat, u: nat)
    requires e !in entries
    ensures |Links(entries[e := v], u)| == |Links(entries, u)| + if u == v then 1 else 0
  {
    assert e !in Links(entries, u);
    assert Links(entries[e := v], u) == Links(entries, u) + if u == v then {e} else {};
  }

  lemma LinksDropped(entries: map<Entry, nat>, e: Entry, u: nat)
    requires e in entries
    ensures |Links(entries, u)| == |Links(entries - {e}, u)| + if u == entries[e] then 1 else 0
  {
    assert e !in Links(entries - {e}, u);
    assert Links(entries, u) == Links(entries - {e}, u) + if u == entries[e] then {e} else {};
  }

  lemma OpenersAdded(files: map<nat, OpenFile>, f: nat, o: OpenFile, u: nat)
    requires f !in files
    ensures |Openers(files[f := o], u)| == |Openers(files, u)| + if u == o.vnode then 1 else 0
  {
    assert f !in Openers(files, u);
    assert Openers(files[f := o], u) == Openers(files, u) + if u == o.vnode then {f} else {};
  }

  lemma OpenersDropped(files: map<nat, OpenFile>, f: nat, u: nat)
    requires f in files
    ensures |Openers(files, u)| == |Openers(files - {f}, u)| + if u == files[f].vnode then 1 else 0
  {
    assert f !in Openers(files - {f}, u);
    assert Openers(files, u) == Openers(files - {f}, u) + if u == files[f].vnode then {f} else {};
  }

  /** A reference in flight becomes a directory entry. */
  lemma AddLink(vnodes: map<nat, Vnode>, entries: map<Entry, nat>, files: map<nat, OpenFile>, held: multiset<nat>,
                e: Entry, v: nat)
    requires VnodesCounted(vnodes, entries, files, held) && v in held && e !in entries
    ensures VnodesCounted(vnodes, entries[e := v], files, held - multiset{v})
  {
    hide Links;
    hide Openers;
    forall u: nat
      ensures |Links(entries[e := v], u)| == |Links(entries, u)| + if u == v then 1 else 0
    {
      LinksAdded(entries, e, v, u);
    }
  }

  /** A directory entry becomes a reference in flight. */
  lemma DropLink(vnodes: map<nat, Vnode>, entries: map<Entry, nat>, files: map<nat, OpenFile>, held: multiset<nat>,
                 e: Entry)
    requires VnodesCounted(vnodes, entries, files, held) && e in entries
    ensures VnodesCounted(vnodes, entries - {e}, files, held + multiset{entries[e]})
  {
    hide Links;
    hide Openers;
    forall u: nat
      ensures |Links(entries, u)| == |Links(entries - {e}, u)| + if u == entries[e] then 1 else 0
    {
      LinksDropped(entries, e, u);
    }
  }

  /** A reference in flight becomes an open file. */
  lemma AddOpener(vnodes: map<nat, Vnode>, entries: map<Entry, nat>, files: map<nat, OpenFile>, held: multiset<nat>,
                  f: nat, o: OpenFile)
    requires VnodesCounted(vnodes, entries, files, held) && o.vnode in held && f !in files
    ensures VnodesCounted(vnodes, entries, files[f := o], held - multiset{o.vnode})
  {
    hide Links;
    hide Openers;
    forall u: nat
      ensures |Openers(files[f := o], u)| == |Openers(files, u)| + if u == o.vnode then 1 else 0
    {
      OpenersAdded(files, f, o, u);
    }
  }

  /** An open file becomes a reference in flight. */
  lemma DropOpener(vnodes: map<nat, Vnode>, entries: map<Entry, nat>, files: map<nat, OpenFile>, held: multiset<nat>,
                   f: nat)
    requires VnodesCounted(vnodes, entries, files, held) && f in files
    ensures VnodesCounted(vnodes, entries, files - {f}, held + multiset{files[f].vnode})
  {
    hide Links;
    hide Openers;
    forall u: nat
      ensures |Openers(files, u)| == |Openers(files - {f}, u)| + if u == files[f].vnode then 1 else 0
    {
      OpenersDropped(files, f, u);
    }
  }

  /** With nothing in flight, exactly the vnodes that are linked or open exist. */
  lemma AliveExactly(vnodes: map<nat, Vnode>, entries: map<Entry, nat>, files: map<nat, OpenFile>, v: nat)
    requires VnodesCounted(vnodes, entries, files, multiset{})
    ensures v in vnodes <==> Links(entries, v) != {} || Openers(files, v) != {}
  {
    if e :| e in Links(entries, v) {
      assert entries[e] in vnodes;
    }
    if f :| f in Openers(files, v) {
      assert files[f].vnode in vnodes;
    }
    if v in vnodes {
      assert |Links(entries, v)| > 0 || |Openers(files, v)| > 0;
    }
  }

  // ---------------------------------------------------------------- open files

  lemma NewFile(files: map<nat, OpenFile>, fds: seq<Option<Fde>>, held: multiset<nat>, f: nat, o: OpenFile)
    requires FilesCounted(files, fds, held) && f !in files && o.refcount == 1
    ensures FilesCounted(files[f := o], fds, held + multiset{f})
  {
    assert FdsOf(fds, f) == {};
  }

  lemma RefFile(files: map<nat, OpenFile>, fds: seq<Option<Fde>>, held: multiset<nat>, f: nat)
    requires FilesCounted(files, fds, held) && f in files
    ensures FilesCounted(files[f := files[f].(refcount := files[f].refcount + 1)], fds, held + multiset{f})
  {
  }

  lemma NoDescriptor(fds: seq<Option<Fde>>, f: nat)
    ensures |FdsOf(fds, f)| == 0 <==> forall i :: !Names(fds, i, f)
  {
    if |FdsOf(fds, f)| == 0 {
      assert forall i :: Names(fds, i, f) ==> i in FdsOf(fds, f);
    } else {
      var i :| i in FdsOf(fds, f);
    }
  }

  /** Dropping a reference in flight; with the last one the open file goes. */
  lemma UnrefFile(files: map<nat, OpenFile>, fds: seq<Option<Fde>>, held: multiset<nat>, f: nat)
    requires FilesCounted(files, fds, held) && f in held
    ensures f in files
    ensures files[f].refcount > 1 ==>
              FilesCounted(files[f := files[f].(refcount := files[f].refcount - 1)], fds, held - multiset{f})
    ensures files[f].refcount == 1 ==> FilesCounted(files - {f}, fds, held - multiset{f})
  {
    hide FdsOf;
    NoDescriptor(fds, f);
  }

  lemma FdsAdded(fds: seq<Option<Fde>>, i: nat, d: Fde, f: nat)
    requires i < |fds| && fds[i].None?
    ensures |FdsOf(fds[i := Some(d)], f)| == |FdsOf(fds, f)| + if d.file == Some(f) then 1 else 0
  {
    var fds' := fds[i := Some(d)];
    assert i !in FdsOf(fds, f);
    forall j
      ensures j in FdsOf(fds', f) <==> j in FdsOf(fds, f) || (j == i && d.file == Some(f))
    {
      assert j != i ==> (Names(fds', j, f) <==> Names(fds, j, f));
    }
    assert FdsOf(fds', f) == FdsOf(fds, f) + if d.file == Some(f) then {i} else {};
  }

  lemma FdsDropped(fds: seq<Option<Fde>>, i: nat, f: nat)
    requires i < |fds| && fds[i].Some?
    ensures |FdsOf(fds, f)| == |FdsOf(fds[i := None], f)| + if fds[i].value.file == Some(f) then 1 else 0
  {
    FdsAdded(fds[i := None], i, fds[i].value, f);
    assert fds[i := None][i := Some(fds[i].value)] == fds;
  }

  /** A reference in flight becomes a descriptor. */
  lemma Installed(files: map<nat, OpenFile>, fds: seq<Option<Fde>>, held: multiset<nat>, i: nat, d: Fde)
    requires FilesCounted(files, fds, held) && i < |fds| && fds[i].None? && d.refcount == 1
    requires d.file.Some? ==> d.file.value in held
    ensures FilesCounted(files, fds[i := Some(d)], if d.file.Some? then held - multiset{d.file.value} else held)
  {
    hide FdsOf;
    var fds' := fds[i := Some(d)];
    forall f: nat
      ensures |FdsOf(fds', f)| == |FdsOf(fds, f)| + if d.file == Some(f) then 1 else 0
    {
      FdsAdded(fds, i, d, f);
    }
    forall j, f | Names(fds', j, f)
      ensures f in files
    {
      assert j != i ==> Names(fds, j, f);
    }
  }

  /** A descriptor becomes a reference in flight. */
  lemma Uninstalled(files: map<nat, OpenFile>, fds: seq<Option<Fde>>, held: multiset<nat>, i: nat)
    requires FilesCounted(files, fds, held) && i < |fds| && fds[i].Some?
    ensures var file := fds[i].value.file;
            FilesCounted(files, fds[i := None], if file.Some? then held + multiset{file.value} else held)
  {
    hide FdsOf;
    var fds', file := fds[i := None], fds[i].value.file;
    forall f: nat
      ensures |FdsOf(fds, f)| == |FdsOf(fds', f)| + if file == Some(f) then 1 else 0
    {
      FdsDropped(fds, i, f);
    }
    assert file.Some? ==> Names(fds, i, file.value);
    forall j, f | Names(fds', j, f)
      ensures f in files
    {
      assert Names(fds, j, f);
    }
  }
}
