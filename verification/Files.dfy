/** Opening, linking, unlinking, duplicating and closing regular files in one process. */
module Files {
  import opened Options
  import opened FileTable

  datatype Errno = EINVAL | ENOENT | EEXIST | ENOMEM | EMFILE | EBADF | ENOTDIR

  datatype Result<T> = Ok(value: T) | Err(errno: Errno)

  datatype OpenFlags = OpenFlags(creat: bool, excl: bool, trunc: bool, directory: bool, bits: nat)

  /** Numbers from n on are not used. */
  ghost predicate Below(used: set<nat>, n: nat) {
    forall x :: x in used ==> x < n
  }

  ghost predicate AllCounted(vnodes: map<nat, Vnode>, entries: map<Entry, nat>, files: map<nat, OpenFile>,
                             fds: seq<Option<Fde>>,
                             nextVnode: nat, nextFile: nat, heldVnodes: multiset<nat>, heldFiles: multiset<nat>) {
    && |fds| == PROC_MAX_FDS
    && VnodesCounted(vnodes, entries, files, heldVnodes)
    && FilesCounted(files, fds, heldFiles)
    && Below(vnodes.Keys, nextVnode)
    && Below(files.Keys, nextFile)
  }

  /** An open file takes over a reference to a vnode. */
  lemma FileOpened(vnodes: map<nat, Vnode>, entries: map<Entry, nat>, files: map<nat, OpenFile>, fds: seq<Option<Fde>>,
                   nextVnode: nat, nextFile: nat, heldVnodes: multiset<nat>, heldFiles: multiset<nat>, o: OpenFile)
    requires AllCounted(vnodes, entries, files, fds, nextVnode, nextFile, heldVnodes, heldFiles)
    requires o.vnode in heldVnodes && o.refcount == 1
    ensures nextFile !in files
    ensures AllCounted(vnodes, entries, files[nextFile := o], fds, nextVnode, nextFile + 1,
                       heldVnodes - multiset{o.vnode}, heldFiles + multiset{nextFile})
  {
    assert nextFile !in files;
    hide VnodesCounted;
    hide FilesCounted;
    AddOpener(vnodes, entries, files, heldVnodes, nextFile, o);
    NewFile(files, fds, heldFiles, nextFile, o);
  }

  /** Vnodes that are still there have their bytes. */
  ghost predicate ContentKept(vnodes: map<nat, Vnode>, vnodes': map<nat, Vnode>) {
    forall v :: v in vnodes && v in vnodes' ==> vnodes'[v].content == vnodes[v].content
  }

  /** Open files that are still there belong to the same vnodes. */
  ghost predicate FilesKept(files: map<nat, OpenFile>, files': map<nat, OpenFile>) {
    forall f :: f in files && f in files' ==> files'[f].vnode == files[f].vnode
  }

  /** With nothing in flight, exactly the open files that some descriptor names exist. */
  lemma OpenExactly(files: map<nat, OpenFile>, fds: seq<Option<Fde>>, f: nat)
    requires FilesCounted(files, fds, multiset{})
    ensures f in files <==> exists i :: Names(fds, i, f)
  {
    NoDescriptor(fds, f);
  }

  class FileState {
    var vnodes: map<nat, Vnode>
    var entries: map<Entry, nat>
    var files: map<nat, OpenFile>
    var fds: seq<Option<Fde>>
    var nextVnode: nat
    var nextFile: nat
    /** References that a call in progress holds. */
    ghost var heldVnodes: multiset<nat>
    ghost var heldFiles: multiset<nat>

    ghost predicate Counted()
      reads this
    {
      AllCounted(vnodes, entries, files, fds, nextVnode, nextFile, heldVnodes, heldFiles)
    }

    /** Between calls: each count is the number of entries and open files, or of descriptors. */
    ghost predicate Valid()
      reads this
    {
      Counted() && heldVnodes == multiset{} && heldFiles == multiset{}
    }

    constructor (fds: seq<Option<Fde>>)
      requires |fds| == PROC_MAX_FDS && forall i :: 0 <= i < |fds| && fds[i].Some? ==> fds[i].value == Fde(None, 1)
      ensures Valid() && this.fds == fds && entries == map[] && files == map[] && vnodes == map[]
    {
      vnodes, entries, files, this.fds := map[], map[], map[], fds;
      nextVnode, nextFile := 0, 0;
      heldVnodes, heldFiles := multiset{}, multiset{};
    }

    // -------------------------------------------------------------- vnodes

    /** vfs_vnode_ref. */
    method VnodeRef(v: nat)
      requires Counted() && v in vnodes
      modifies this`vnodes, this`heldVnodes
      ensures Counted() && heldVnodes == old(heldVnodes) + multiset{v}
      ensures vnodes.Keys == old(vnodes).Keys && ContentKept(old(vnodes), vnodes)
    {
      hide VnodesCounted;
      hide FilesCounted;
      RefVnode(vnodes, entries, files, heldVnodes, v);
      vnodes := vnodes[v := vnodes[v].(refcount := vnodes[v].refcount + 1)];
      heldVnodes := heldVnodes + multiset{v};
    }

    /** vfs_vnode_unref: with the last reference the vnode is released. */
    method VnodeUnref(v: nat)
      requires Counted() && v in heldVnodes
      modifies this`vnodes, this`heldVnodes
      ensures Counted() && heldVnodes == old(heldVnodes) - multiset{v}
      ensures v in old(vnodes)
      ensures vnodes.Keys == old(vnodes).Keys - (if old(vnodes)[v].refcount == 1 then {v} else {})
      ensures ContentKept(old(vnodes), vnodes)
    {
      hide VnodesCounted;
      hide FilesCounted;
      VnodeThere(vnodes, entries, files, heldVnodes, v);
      UnrefVnode(vnodes, entries, files, heldVnodes, v);
      var before := vnodes[v].refcount;
      if before == 1 {
        vnodes := vnodes - {v};
      } else {
        vnodes := vnodes[v := vnodes[v].(refcount := before - 1)];
      }
      heldVnodes := heldVnodes - multiset{v};
    }

    /** tmpfs_lookup: the vnode of a name, with a reference. */
    method LookupEntry(e: Entry) returns (v: Option<nat>)
      requires Counted()
      modifies this`vnodes, this`heldVnodes
      ensures Counted() && vnodes.Keys == old(vnodes).Keys && ContentKept(old(vnodes), vnodes)
      ensures v == if e in entries then Some(entries[e]) else None
      ensures heldVnodes == old(heldVnodes) + if v.Some? then multiset{v.value} else multiset{}
      ensures v.Some? ==> v.value in vnodes
    {
      if e !in entries {
        return None;
      }
      VnodeRef(entries[e]);
      v := Some(entries[e]);
    }

    /** tmpfs_dirent_add: a new name for a vnode, with a reference of its own. */
    method DirentAdd(e: Entry, v: nat) returns (ok: bool)
      requires Counted() && v in vnodes
      modifies this`vnodes, this`entries, this`heldVnodes
      ensures Counted() && heldVnodes == old(heldVnodes)
      ensures ok <==> e !in old(entries)
      ensures ok ==> entries == old(entries)[e := v]
      ensures vnodes.Keys == old(vnodes).Keys && ContentKept(old(vnodes), vnodes)
      ensures !ok ==> entries == old(entries)
    {
      hide VnodesCounted;
      hide FilesCounted;
      if e in entries {
        return false;
      }
      ghost var before := heldVnodes;
      VnodeRef(v);
      AddLink(vnodes, entries, files, heldVnodes, e, v);
      entries := entries[e := v];
      heldVnodes := heldVnodes - multiset{v};
      assert heldVnodes == before;
      ok := true;
    }

    /** tmpfs_create: a fresh empty file under a new name, with a reference for the caller. */
    method CreateEntry(e: Entry) returns (v: Option<nat>)
      requires Counted()
      modifies this`vnodes, this`entries, this`heldVnodes, this`nextVnode
      ensures Counted()
      ensures v.None? <==> e in old(entries)
      ensures ContentKept(old(vnodes), vnodes)
      ensures v.None? ==> vnodes == old(vnodes) && entries == old(entries) && heldVnodes == old(heldVnodes)
      ensures nextVnode == old(nextVnode) + if v.Some? then 1 else 0
      ensures v.Some? ==>
                && v.value !in old(vnodes) && vnodes.Keys == old(vnodes).Keys + {v.value}
                && vnodes[v.value].content == [] && v.value == old(nextVnode)
                && entries == old(entries)[e := v.value] && heldVnodes == old(heldVnodes) + multiset{v.value}
    {
      hide VnodesCounted;
      hide FilesCounted;
      if e in entries {
        return None;
      }
      var n := nextVnode;
      NewVnode(vnodes, entries, files, heldVnodes, n, Vnode(1, []));
      vnodes, nextVnode := vnodes[n := Vnode(1, [])], nextVnode + 1;
      heldVnodes := heldVnodes + multiset{n};
      var ok := DirentAdd(e, n);
      v := Some(n);
    }

    // -------------------------------------------------------------- open files

    /** The vnode of a name with a reference, created if need be and O_CREAT is given. */
    method LookupOrCreate(e: Entry, flags: OpenFlags) returns (v: Option<nat>)
      requires Counted()
      modifies this`vnodes, this`entries, this`heldVnodes, this`nextVnode
      ensures Counted() && ContentKept(old(vnodes), vnodes)
      ensures v.Some? <==> e in old(entries) || flags.creat
      ensures NamesAfter(old(entries), entries, e, flags) && old(vnodes).Keys <= vnodes.Keys
      ensures Numbered(old(entries), entries, old(vnodes), vnodes, old(nextVnode), nextVnode, e)
      ensures v.Some? ==>
                e in entries && v.value == entries[e] && v.value in vnodes
                && heldVnodes == old(heldVnodes) + multiset{v.value}
      ensures v.None? ==> heldVnodes == old(heldVnodes)
    {
      hide VnodesCounted;
      hide FilesCounted;
      v := LookupEntry(e);
      if v.None? && flags.creat {
        v := CreateEntry(e);
      }
    }

    /** The first half of vfs_open, after the path has been resolved to a name in a directory: the vnode with
        a reference. With O_CREAT and O_EXCL it always fails, also when it has just created the file. */
    method ResolveEntry(e: Entry, flags: OpenFlags) returns (r: Result<nat>)
      requires Counted()
      modifies this`vnodes, this`entries, this`heldVnodes, this`nextVnode
      ensures Counted() && ContentKept(old(vnodes), vnodes)
      ensures r.Ok? <==> Reaches(old(entries), e, flags)
      ensures r.Err? ==> r.errno == OpenErrno(old(entries), e, flags)
      ensures NamesAfter(old(entries), entries, e, flags) && (r.Ok? ==> old(vnodes).Keys <= vnodes.Keys)
      ensures Numbered(old(entries), entries, old(vnodes), vnodes, old(nextVnode), nextVnode, e)
      ensures r.Ok? ==>
                e in entries && r.value == entries[e] && r.value in vnodes
                && heldVnodes == old(heldVnodes) + multiset{r.value}
      ensures r.Err? ==> heldVnodes == old(heldVnodes)
    {
      hide VnodesCounted;
      hide FilesCounted;
      hide NamesAfter;
      hide ContentKept;
      hide Numbered;
      var found := LookupOrCreate(e, flags);
      if found.None? {
        return Err(ENOENT);
      }
      var v := found.value;
      HoldAndDrop(old(heldVnodes), v);
      ghost var vnodes1 := vnodes;
      r := Ok(v);
      if flags.creat && flags.excl {
        VnodeUnref(v);
        r := Err(EEXIST);
      } else if flags.directory {
        VnodeUnref(v);
        r := Err(ENOTDIR);
      }
      if r.Err? {
        KeptTrans(old(vnodes), vnodes1, vnodes);
        NumberedThenKept(old(entries), entries, old(vnodes), vnodes1, vnodes, old(nextVnode), nextVnode, e);
      }
    }

    /** tmpfs_truncate to nothing. */
    method Truncate(v: nat)
      requires Counted() && v in vnodes
      modifies this`vnodes
      ensures Counted() && vnodes == old(vnodes)[v := old(vnodes)[v].(content := [])]
    {
      hide FilesCounted;
      SameVnodeCounts(vnodes, entries, files, heldVnodes, vnodes[v := vnodes[v].(content := [])], files);
      vnodes := vnodes[v := vnodes[v].(content := [])];
    }

    /** An open file takes over a reference to a vnode. */
    method NewOpenFile(v: nat, flags: OpenFlags) returns (f: nat)
      requires Counted() && v in heldVnodes
      modifies this`files, this`heldVnodes, this`heldFiles, this`nextFile
      ensures Counted() && heldVnodes == old(heldVnodes) - multiset{v} && heldFiles == old(heldFiles) + multiset{f}
      ensures f !in old(files) && files == old(files)[f := OpenFile(v, 1, flags.bits)]
    {
      hide AllCounted;
      f := nextFile;
      var o := OpenFile(v, 1, flags.bits);
      FileOpened(vnodes, entries, files, fds, nextVnode, nextFile, heldVnodes, heldFiles, o);
      files, nextFile := files[f := o], nextFile + 1;
      heldVnodes := heldVnodes - multiset{v};
      heldFiles := heldFiles + multiset{f};
    }

    /** The second half of vfs_open, which fails if there is no memory for the open file. */
    method MakeFile(v: nat, flags: OpenFlags, room: bool) returns (r: Result<nat>)
      requires Counted() && v in heldVnodes
      modifies this`vnodes, this`files, this`heldVnodes, this`heldFiles, this`nextFile
      ensures Counted() && heldVnodes == old(heldVnodes) - multiset{v}
      ensures ContentKept(old(vnodes), vnodes) && vnodes.Keys <= old(vnodes).Keys
      ensures r.Ok? <==> room
      ensures r.Err? ==> r.errno == ENOMEM && files == old(files) && heldFiles == old(heldFiles)
      ensures r.Ok? ==> r.value !in old(files) && files == old(files)[r.value := OpenFile(v, 1, flags.bits)]
                        && heldFiles == old(heldFiles) + multiset{r.value}
    {
      hide VnodesCounted;
      hide FilesCounted;
      hide Below;
      if !room {
        VnodeUnref(v);
        return Err(ENOMEM);
      }
      var f := NewOpenFile(v, flags);
      r := Ok(f);
    }

    /** vfs_open: a new open file for the name, which exists afterwards if O_CREAT is given. */
    method OpenEntry(e: Entry, flags: OpenFlags, room: bool) returns (r: Result<nat>)
      requires Counted()
      modifies this`vnodes, this`entries, this`files, this`heldVnodes, this`heldFiles, this`nextVnode, this`nextFile
      ensures Counted() && heldVnodes == old(heldVnodes)
      ensures r.Ok? <==> Reaches(old(entries), e, flags) && room
      ensures r == Err(ENOENT) <==> e !in old(entries) && !flags.creat
      ensures r == Err(EEXIST) <==> flags.creat && flags.excl
      ensures r == Err(ENOTDIR) <==>
                (e in old(entries) || flags.creat) && !(flags.creat && flags.excl) && flags.directory
      ensures r == Err(ENOMEM) <==> Reaches(old(entries), e, flags) && !room
      ensures r != Err(EMFILE)
      ensures NamesAfter(old(entries), entries, e, flags)
      ensures Numbered(old(entries), entries, old(vnodes), vnodes, old(nextVnode), nextVnode, e)
      ensures r.Err? ==> files == old(files) && heldFiles == old(heldFiles)
      ensures r.Ok? ==> e in entries && r.value !in old(files)
                        && files == old(files)[r.value := OpenFile(entries[e], 1, flags.bits)]
                        && heldFiles == old(heldFiles) + multiset{r.value}
      ensures TruncatedOnly(old(vnodes), vnodes, Cut(old(entries), entries, e, flags))
    {
      hide AllCounted;
      hide NamesAfter;
      hide ContentKept;
      hide TruncatedOnly;
      hide Reaches;
      hide Numbered;
      var found := ResolveEntry(e, flags);
      if found.Err? {
        NotTruncated(old(vnodes), vnodes);
        OpenErrnoIs(old(entries), e, flags);
        return Err(found.errno);
      }
      ReachesIs(old(entries), e, flags);
      var v := found.value;
      HoldAndDrop(old(heldVnodes), v);
      ghost var vnodes1 := vnodes;
      if flags.trunc {
        Truncate(v);
      }
      ghost var vnodes2 := vnodes;
      r := MakeFile(v, flags, room);
      TruncatedStep(old(vnodes), vnodes1, vnodes2, vnodes, if flags.trunc then Some(v) else None);
      NumberedThenKept(old(entries), entries, old(vnodes), vnodes1, vnodes, old(nextVnode), nextVnode, e);
    }

    /** vfs_close: with the last reference the open file goes, and its reference to the vnode. */
    method CloseFile(f: nat)
      requires Counted() && f in heldFiles
      modifies this`vnodes, this`files, this`heldVnodes, this`heldFiles
      ensures Counted() && heldFiles == old(heldFiles) - multiset{f} && heldVnodes == old(heldVnodes)
      ensures ContentKept(old(vnodes), vnodes) && vnodes.Keys <= old(vnodes).Keys
      ensures f in old(files)
      ensures files == if old(files)[f].refcount == 1 then old(files) - {f}
                       else old(files)[f := old(files)[f].(refcount := old(files)[f].refcount - 1)]
    {
      hide VnodesCounted;
      hide FilesCounted;
      ghost var before := heldVnodes;
      FileThere(files, fds, heldFiles, f);
      UnrefFile(files, fds, heldFiles, f);
      if files[f].refcount == 1 {
        var v := files[f].vnode;
        DropOpener(vnodes, entries, files, heldVnodes, f);
        files := files - {f};
        heldVnodes := heldVnodes + multiset{v};
        heldFiles := heldFiles - multiset{f};
        VnodeUnref(v);
        assert heldVnodes == before;
      } else {
        var o := files[f].(refcount := files[f].refcount - 1);
        SameVnodeCounts(vnodes, entries, files, heldVnodes, vnodes, files[f := o]);
        files := files[f := o];
        heldFiles := heldFiles - multiset{f};
      }
    }

    // -------------------------------------------------------------- names

    /** vfs_link: another name for a file. */
    method Link(from: Entry, to: Entry) returns (r: Result<()>)
      requires Valid()
      modifies this`vnodes, this`entries, this`heldVnodes
      ensures Valid() && ContentKept(old(vnodes), vnodes) && vnodes.Keys <= old(vnodes).Keys
      ensures r == if from !in old(entries) then Err(ENOENT) else if to in old(entries) then Err(EEXIST) else Ok(())
      ensures entries == if r.Ok? then old(entries)[to := old(entries)[from]] else old(entries)
    {
      hide VnodesCounted;
      hide FilesCounted;
      var target := LookupEntry(from);
      if target.None? {
        return Err(ENOENT);
      }
      var ok := DirentAdd(to, target.value);
      VnodeUnref(target.value);
      r := if ok then Ok(()) else Err(EEXIST);
    }

    /** vfs_unlink: the name goes; the file stays while something refers to it. */
    method Unlink(e: Entry) returns (r: Result<()>)
      requires Valid()
      modifies this`vnodes, this`entries, this`heldVnodes
      ensures Valid() && ContentKept(old(vnodes), vnodes) && vnodes.Keys <= old(vnodes).Keys
      ensures r == if e in old(entries) then Ok(()) else Err(ENOENT)
      ensures entries == old(entries) - {e}
      ensures forall f :: f in files ==> files[f].vnode in vnodes
    {
      hide VnodesCounted;
      hide FilesCounted;
      OpenVnodes(vnodes, entries, files, heldVnodes);
      if e !in entries {
        assert entries - {e} == entries;
        return Err(ENOENT);
      }
      var v := entries[e];
      HoldAndDrop(heldVnodes, v);
      DropLink(vnodes, entries, files, heldVnodes, e);
      entries := entries - {e};
      heldVnodes := heldVnodes + multiset{v};
      VnodeUnref(v);
      OpenVnodes(vnodes, entries, files, heldVnodes);
      r := Ok(());
    }

    // -------------------------------------------------------------- descriptors

    /** The loop of proc_fd_alloc and fcntl_dup_fd: the lowest unused descriptor from `from` on. */
    method FreeDescriptor(from: nat) returns (fd: Option<nat>)
      requires |fds| == PROC_MAX_FDS && from <= PROC_MAX_FDS
      ensures fd.Some? ==> LowestFree(fds, from, fd.value)
      ensures fd.None? ==> forall i :: from <= i < PROC_MAX_FDS ==> fds[i].Some?
    {
      for i := from to PROC_MAX_FDS
        invariant forall j :: from <= j < i ==> fds[j].Some?
      {
        if fds[i].None? {
          return Some(i);
        }
      }
      fd := None;
    }

    /** proc_fd_install of a descriptor whose reference is in flight. */
    method Install(fd: nat, d: Fde)
      requires Counted() && fd < PROC_MAX_FDS && fds[fd].None? && d.refcount == 1
               && (d.file.Some? ==> d.file.value in heldFiles)
      modifies this`fds, this`heldFiles
      ensures Counted() && fds == old(fds)[fd := Some(d)]
      ensures heldFiles == if d.file.Some? then old(heldFiles) - multiset{d.file.value} else old(heldFiles)
    {
      hide VnodesCounted;
      hide FilesCounted;
      hide Below;
      Installed(files, fds, heldFiles, fd, d);
      fds := fds[fd := Some(d)];
      heldFiles := if d.file.Some? then heldFiles - multiset{d.file.value} else heldFiles;
    }

    /** proc_fd_close and then vfs_close: the descriptor goes, and the open file with its last descriptor. */
    method DropDescriptor(fd: nat)
      requires Valid() && fd < PROC_MAX_FDS && fds[fd].Some?
      modifies this`vnodes, this`files, this`fds, this`heldVnodes, this`heldFiles
      ensures Valid() && fds == old(fds)[fd := None]
      ensures ContentKept(old(vnodes), vnodes) && vnodes.Keys <= old(vnodes).Keys
      ensures files.Keys <= old(files).Keys && FilesKept(old(files), files)
    {
      hide VnodesCounted;
      hide FilesCounted;
      hide Below;
      var file := fds[fd].value.file;
      OneOwner(files, fds, heldFiles, fd);
      Uninstalled(files, fds, heldFiles, fd);
      fds := fds[fd := None];
      if file.Some? {
        heldFiles := heldFiles + multiset{file.value};
        HoldAndDrop(old(heldFiles), file.value);
        CloseFile(file.value);
      }
    }

    /** A descriptor for an open file that nothing names yet. If none from 3 on is free, the file is closed. */
    method InstallNew(f: nat) returns (r: Result<nat>)
      requires Counted() && heldVnodes == multiset{} && heldFiles == multiset{f} && f in files && files[f].refcount == 1
      modifies this`vnodes, this`files, this`fds, this`heldVnodes, this`heldFiles
      ensures Valid() && ContentKept(old(vnodes), vnodes) && vnodes.Keys <= old(vnodes).Keys
      ensures r.Ok? <==> CanAllocate(old(fds))
      ensures r.Ok? ==> r.value >= 3 && LowestFree(old(fds), 0, r.value) && files == old(files)
                        && fds == old(fds)[r.value := Some(Fde(Some(f), 1))]
      ensures r.Err? ==> r.errno == EMFILE && fds == old(fds) && files == old(files) - {f}
    {
      hide AllCounted;
      TableSize(vnodes, entries, files, fds, nextVnode, nextFile, heldVnodes, heldFiles);
      SameContent(vnodes);
      HoldAndDrop(multiset{}, f);
      var fd := FreeDescriptor(0);
      if fd.None? || fd.value < 3 {
        CloseFile(f);
        return Err(EMFILE);
      }
      Install(fd.value, Fde(Some(f), 1));
      r := Ok(fd.value);
    }

    /** sys_openat: a descriptor for a new open file. If none from 3 on is free, the open is undone. */
    method SysOpen(e: Entry, flags: OpenFlags, room: bool) returns (r: Result<nat>)
      requires Valid()
      modifies this
      ensures Valid() && NamesAfter(old(entries), entries, e, flags)
      ensures Numbered(old(entries), entries, old(vnodes), vnodes, old(nextVnode), nextVnode, e)
      ensures r.Ok? <==> Reaches(old(entries), e, flags) && room && CanAllocate(old(fds))
      ensures r == Err(ENOENT) <==> e !in old(entries) && !flags.creat
      ensures r == Err(EEXIST) <==> flags.creat && flags.excl
      ensures r == Err(ENOTDIR) <==>
                (e in old(entries) || flags.creat) && !(flags.creat && flags.excl) && flags.directory
      ensures r == Err(ENOMEM) <==> Reaches(old(entries), e, flags) && !room
      ensures r == Err(EMFILE) <==> Reaches(old(entries), e, flags) && room && !CanAllocate(old(fds))
      ensures r.Err? ==> fds == old(fds) && files == old(files)
      ensures TruncatedOnly(old(vnodes), vnodes, Cut(old(entries), entries, e, flags))
      ensures r.Ok? ==>
                && r.value >= 3 && LowestFree(old(fds), 0, r.value) && e in entries
                && exists f :: && f !in old(files) && fds == old(fds)[r.value := Some(Fde(Some(f), 1))]
                               && files == old(files)[f := OpenFile(entries[e], 1, flags.bits)]
    {
      hide AllCounted;
      hide NamesAfter;
      hide ContentKept;
      hide TruncatedOnly;
      hide Reaches;
      hide LowestFree;
      hide Numbered;
      hide Cut;
      var handle := OpenEntry(e, flags, room);
      ReachesIs(old(entries), e, flags);
      if handle.Err? {
        return Err(handle.errno);
      }
      var f := handle.value;
      ghost var vnodes1 := vnodes;
      r := InstallNew(f);
      TruncatedThenKept(old(vnodes), vnodes1, vnodes, Cut(old(entries), entries, e, flags));
      NumberedThenKept(old(entries), entries, old(vnodes), vnodes1, vnodes, old(nextVnode), nextVnode, e);
      assert r.Err? ==> files == old(files);
    }

    /** sys_close: the standard streams stay. */
    method SysClose(fd: nat) returns (r: Result<()>)
      requires Valid()
      modifies this
      ensures Valid() && entries == old(entries) && ContentKept(old(vnodes), vnodes)
      ensures vnodes.Keys <= old(vnodes).Keys && nextVnode == old(nextVnode)
      ensures r == if fd < 3 || (fd < PROC_MAX_FDS && old(fds)[fd].Some?) then Ok(()) else Err(EBADF)
      ensures fds == if r.Ok? && fd >= 3 then old(fds)[fd := None] else old(fds)
      ensures files.Keys <= old(files).Keys && FilesKept(old(files), files)
    {
      hide AllCounted;
      TableSize(vnodes, entries, files, fds, nextVnode, nextFile, heldVnodes, heldFiles);
      if fd >= PROC_MAX_FDS {
        return Err(EBADF);
      }
      if fd < 3 {
        return Ok(());
      }
      if fds[fd].None? {
        return Err(EBADF);
      }
      DropDescriptor(fd);
      r := Ok(());
    }

    /** The shared part of sys_dup, sys_dup2 and fcntl_dup_fd: another descriptor for the same open file. */
    method Duplicate(from: nat, to: nat)
      requires Valid() && from < PROC_MAX_FDS && fds[from].Some? && to < PROC_MAX_FDS && fds[to].None?
      modifies this`files, this`fds, this`heldFiles
      ensures Valid() && fds == old(fds)[to := Some(Fde(old(fds)[from].value.file, 1))]
      ensures files.Keys == old(files).Keys && FilesKept(old(files), files)
    {
      hide VnodesCounted;
      hide FilesCounted;
      hide Below;
      var file := fds[from].value.file;
      OneOwner(files, fds, heldFiles, from);
      if file.Some? {
        var f := file.value;
        var o := files[f].(refcount := files[f].refcount + 1);
        RefFile(files, fds, heldFiles, f);
        SameVnodeCounts(vnodes, entries, files, heldVnodes, vnodes, files[f := o]);
        files := files[f := o];
        heldFiles := heldFiles + multiset{f};
        HoldAndDrop(old(heldFiles), f);
      }
      Install(to, Fde(file, 1));
    }

    /** sys_dup. */
    method SysDup(from: nat, room: bool) returns (r: Result<nat>)
      requires Valid()
      modifies this
      ensures Valid() && entries == old(entries) && vnodes == old(vnodes) && nextVnode == old(nextVnode)
      ensures r == Err(EBADF) <==> !(from < PROC_MAX_FDS && old(fds)[from].Some?)
      ensures r == Err(EMFILE) <==> from < PROC_MAX_FDS && old(fds)[from].Some? && !CanAllocate(old(fds))
      ensures r == Err(ENOMEM) <==> from < PROC_MAX_FDS && old(fds)[from].Some? && CanAllocate(old(fds)) && !room
      ensures r.Ok? <==>
                room && from < PROC_MAX_FDS && old(fds)[from].Some? && CanAllocate(old(fds))
      ensures r.Ok? ==> r.value >= 3
      ensures r.Ok? ==>
                LowestFree(old(fds), 0, r.value) && fds == old(fds)[r.value := Some(Fde(old(fds)[from].value.file, 1))]
      ensures r.Err? ==> fds == old(fds)
      ensures files.Keys == old(files).Keys && FilesKept(old(files), files)
    {
      hide AllCounted;
      TableSize(vnodes, entries, files, fds, nextVnode, nextFile, heldVnodes, heldFiles);
      if from >= PROC_MAX_FDS || fds[from].None? {
        return Err(EBADF);
      }
      var to := FreeDescriptor(0);
      if to.None? || to.value < 3 {
        return Err(EMFILE);
      }
      if !room {
        return Err(ENOMEM);
      }
      Duplicate(from, to.value);
      r := Ok(to.value);
    }

    /** sys_dup2: what was open at the target is closed first, and stays closed if memory runs out. */
    method SysDup2(from: nat, to: nat, room: bool) returns (r: Result<nat>)
      requires Valid()
      modifies this
      ensures Valid() && entries == old(entries) && ContentKept(old(vnodes), vnodes)
      ensures vnodes.Keys <= old(vnodes).Keys && nextVnode == old(nextVnode)
      ensures from < PROC_MAX_FDS && to < PROC_MAX_FDS && old(fds)[from].Some? && from == to ==>
                r == Ok(to) && fds == old(fds)
      ensures r.Ok? <==>
                from < PROC_MAX_FDS && to < PROC_MAX_FDS && old(fds)[from].Some? && (from == to || (to >= 3 && room))
      ensures r.Ok? && from != to ==> r.value == to && fds == old(fds)[to := Some(Fde(old(fds)[from].value.file, 1))]
      ensures r.Err? ==>
                r.errno == if from < PROC_MAX_FDS && to < PROC_MAX_FDS && old(fds)[from].Some? && to >= 3
                           then ENOMEM else EBADF
      ensures r.Err? ==> fds == if r.errno == ENOMEM && to < PROC_MAX_FDS then old(fds)[to := None] else old(fds)
      ensures files.Keys <= old(files).Keys && FilesKept(old(files), files)
    {
      hide AllCounted;
      TableSize(vnodes, entries, files, fds, nextVnode, nextFile, heldVnodes, heldFiles);
      if from >= PROC_MAX_FDS || to >= PROC_MAX_FDS || fds[from].None? {
        return Err(EBADF);
      }
      if from == to {
        return Ok(to);
      }
      if to < 3 {
        return Err(EBADF);
      }
      if fds[to].Some? {
        DropDescriptor(to);
      }
      assert fds == old(fds)[to := None];
      if !room {
        return Err(ENOMEM);
      }
      Duplicate(from, to);
      r := Ok(to);
    }

    /** F_DUPFD and F_DUPFD_CLOEXEC: the lowest unused descriptor from the given one, and from 3, on. */
    method SysDupFrom(fd: nat, min: int, room: bool) returns (r: Result<nat>)
      requires Valid()
      modifies this
      ensures Valid() && entries == old(entries) && vnodes == old(vnodes) && nextVnode == old(nextVnode)
      ensures r == Err(EBADF) <==> !(fd < PROC_MAX_FDS && old(fds)[fd].Some?)
      ensures r == Err(EINVAL) <==> fd < PROC_MAX_FDS && old(fds)[fd].Some? && !(0 <= min < PROC_MAX_FDS)
      ensures r == Err(EMFILE) <==>
                fd < PROC_MAX_FDS && old(fds)[fd].Some? && 0 <= min < PROC_MAX_FDS
                && forall i :: (if min < 3 then 3 else min) <= i < PROC_MAX_FDS ==> old(fds)[i].Some?
      ensures r.Err? ==> r.errno in {EBADF, EINVAL, EMFILE, ENOMEM}
      ensures r.Ok? <==> room && fd < PROC_MAX_FDS && old(fds)[fd].Some? && 0 <= min < PROC_MAX_FDS
                         && exists i :: (if min < 3 then 3 else min) <= i < PROC_MAX_FDS && old(fds)[i].None?
      ensures r.Ok? ==> 0 <= min && r.value >= 3 && LowestFree(old(fds), if min < 3 then 3 else min, r.value)
                        && fds == old(fds)[r.value := Some(Fde(old(fds)[fd].value.file, 1))]
      ensures r.Err? ==> fds == old(fds)
      ensures files.Keys == old(files).Keys && FilesKept(old(files), files)
    {
      hide AllCounted;
      TableSize(vnodes, entries, files, fds, nextVnode, nextFile, heldVnodes, heldFiles);
      if fd >= PROC_MAX_FDS || fds[fd].None? {
        return Err(EBADF);
      }
      if min < 0 || min >= PROC_MAX_FDS {
        return Err(EINVAL);
      }
      var to := FreeDescriptor(if min < 3 then 3 else min);
      if to.None? {
        return Err(EMFILE);
      }
      if !room {
        return Err(ENOMEM);
      }
      Duplicate(fd, to.value);
      r := Ok(to.value);
    }
  }

  ghost predicate LowestFree(fds: seq<Option<Fde>>, from: nat, fd: nat) {
    && from <= fd < |fds| && fds[fd].None?
    && forall i :: from <= i < fd ==> fds[i].Some?
  }

  /** proc_fd_alloc finds a descriptor that is not one of the standard streams. */
  ghost predicate CanAllocate(fds: seq<Option<Fde>>) {
    exists fd :: LowestFree(fds, 0, fd) && fd >= 3
  }

  lemma TableSize(vnodes: map<nat, Vnode>, entries: map<Entry, nat>, files: map<nat, OpenFile>, fds: seq<Option<Fde>>,
                  nextVnode: nat, nextFile: nat, heldVnodes: multiset<nat>, heldFiles: multiset<nat>)
    requires AllCounted(vnodes, entries, files, fds, nextVnode, nextFile, heldVnodes, heldFiles)
    ensures |fds| == PROC_MAX_FDS
  {
  }

  lemma OneOwner(files: map<nat, OpenFile>, fds: seq<Option<Fde>>, held: multiset<nat>, i: nat)
    requires FilesCounted(files, fds, held) && i < |fds| && fds[i].Some?
    ensures fds[i].value.refcount == 1
    ensures fds[i].value.file.Some? ==> fds[i].value.file.value in files
  {
    assert fds[i].value.file.Some? ==> Names(fds, i, fds[i].value.file.value);
  }

  lemma KeptTrans(v0: map<nat, Vnode>, v1: map<nat, Vnode>, v2: map<nat, Vnode>)
    requires ContentKept(v0, v1) && ContentKept(v1, v2) && v2.Keys <= v1.Keys
    ensures ContentKept(v0, v2)
  {
    assert forall v :: v in v2 ==> v in v2.Keys && v in v1.Keys;
  }

  lemma TruncatedThenKept(v0: map<nat, Vnode>, v1: map<nat, Vnode>, v2: map<nat, Vnode>, cut: Option<nat>)
    requires TruncatedOnly(v0, v1, cut) && ContentKept(v1, v2) && v2.Keys <= v1.Keys
    ensures TruncatedOnly(v0, v2, cut)
  {
    assert forall v :: v in v2 ==> v in v2.Keys && v in v1.Keys;
  }

  lemma NumberedThenKept(entries: map<Entry, nat>, entries': map<Entry, nat>, v0: map<nat, Vnode>, v1: map<nat, Vnode>,
                         v2: map<nat, Vnode>, next: nat, next': nat, e: Entry)
    requires Numbered(entries, entries', v0, v1, next, next', e) && v2.Keys <= v1.Keys
    ensures Numbered(entries, entries', v0, v2, next, next', e)
  {
  }

  // ---------------------------------------------------------------- runs

  datatype Call =
    | CallOpen(e: Entry, flags: OpenFlags, room: bool)
    | CallLink(from: Entry, to: Entry)
    | CallUnlink(e: Entry)
    | CallClose(fd: nat)
    | CallDup(fd: nat, room: bool)
    | CallDup2(fd: nat, target: nat, room: bool)
    | CallDupFrom(fd: nat, min: int, room: bool)

  /** The call does not close the descriptor. */
  predicate Spares(c: Call, fd: nat) {
    && (c.CallClose? ==> c.fd != fd)
    && (c.CallDup2? ==> c.target != fd)
  }

  /** What the calls alone say about one file: the names there are, those of the file, whether it was truncated, the
      descriptors in use, and those for the file. */
  datatype Story = Story(names: set<Entry>, own: set<Entry>, cut: bool, used: set<nat>, mine: set<nat>)

  /** The lowest unused descriptor from one on, or 256. */
  function Lowest(used: set<nat>, from: nat): (fd: nat)
    ensures fd >= from && (from <= PROC_MAX_FDS ==> fd <= PROC_MAX_FDS)
    decreases PROC_MAX_FDS - from
  {
    if from >= PROC_MAX_FDS || from !in used then from else Lowest(used, from + 1)
  }

  function Opening(t: Story, c: Call): Result<nat>
    requires c.CallOpen?
  {
    var fd := Lowest(t.used, 0);
    if c.e !in t.names && !c.flags.creat then Err(ENOENT)
    else if c.flags.creat && c.flags.excl then Err(EEXIST)
    else if c.flags.directory then Err(ENOTDIR)
    else if !c.room then Err(ENOMEM)
    else if fd < 3 || fd >= PROC_MAX_FDS then Err(EMFILE)
    else Ok(fd)
  }

  function Duplicating(t: Story, fd: nat, to: nat, room: bool): Result<nat> {
    if fd !in t.used then Err(EBADF)
    else if to < 3 || to >= PROC_MAX_FDS then Err(EMFILE)
    else if !room then Err(ENOMEM)
    else Ok(to)
  }

  /** The answer to a call. */
  function Says(t: Story, c: Call): Result<nat> {
    match c
    case CallOpen(_, _, _) => Opening(t, c)
    case CallLink(from, to) => if from !in t.names then Err(ENOENT) else if to in t.names then Err(EEXIST) else Ok(0)
    case CallUnlink(e) => if e in t.names then Ok(0) else Err(ENOENT)
    case CallClose(fd) => if fd < 3 || fd in t.used then Ok(0) else Err(EBADF)
    case CallDup(fd, room) => Duplicating(t, fd, Lowest(t.used, 0), room)
    case CallDup2(fd, target, room) =>
      if fd !in t.used || target >= PROC_MAX_FDS then Err(EBADF)
      else if fd == target then Ok(target)
      else if target < 3 then Err(EBADF)
      else if room then Ok(target) else Err(ENOMEM)
    case CallDupFrom(fd, min, room) =>
      if fd in t.used && !(0 <= min < PROC_MAX_FDS) then Err(EINVAL)
      else Duplicating(t, fd, Lowest(t.used, if min < 3 then 3 else min), room)
  }

  /** Another descriptor for what one names. */
  function Doubled(t: Story, fd: nat, to: nat): Story {
    t.(used := t.used + {to}, mine := if fd in t.mine then t.mine + {to} else t.mine - {to})
  }

  function Told(t: Story, c: Call): Story {
    var r := Says(t, c);
    match c
    case CallOpen(e, flags, _) =>
      t.(names := if flags.creat then t.names + {e} else t.names,
         cut := t.cut || (e in t.own && flags.trunc && !(flags.creat && flags.excl) && !flags.directory),
         used := if r.Ok? then t.used + {r.value} else t.used,
         mine := if r.Ok? && e in t.own then t.mine + {r.value} else t.mine)
    case CallLink(from, to) =>
      if r.Ok? then t.(names := t.names + {to}, own := if from in t.own then t.own + {to} else t.own) else t
    case CallUnlink(e) => t.(names := t.names - {e}, own := t.own - {e})
    case CallClose(fd) => if fd >= 3 then t.(used := t.used - {fd}, mine := t.mine - {fd}) else t
    case CallDup(fd, _) => if r.Ok? then Doubled(t, fd, r.value) else t
    case CallDup2(fd, target, _) =>
      if r.Ok? && fd != target then Doubled(t, fd, target)
      else if r == Err(ENOMEM) then t.(used := t.used - {target}, mine := t.mine - {target})
      else t
    case CallDupFrom(fd, _, _) => if r.Ok? then Doubled(t, fd, r.value) else t
  }

  function SaysAll(t: Story, calls: seq<Call>): seq<Result<nat>> {
    if calls == [] then []
    else SaysAll(t, calls[..|calls| - 1]) + [Says(ToldAll(t, calls[..|calls| - 1]), calls[|calls| - 1])]
  }

  function ToldAll(t: Story, calls: seq<Call>): Story {
    if calls == [] then t else Told(ToldAll(t, calls[..|calls| - 1]), calls[|calls| - 1])
  }

  ghost function InUse(fds: seq<Option<Fde>>): set<nat> {
    set i: nat | i < |fds| && fds[i].Some?
  }

  ghost predicate ReadsV(fds: seq<Option<Fde>>, files: map<nat, OpenFile>, i: nat, v: nat) {
    && i < |fds| && fds[i].Some? && fds[i].value.file.Some?
    && fds[i].value.file.value in files && files[fds[i].value.file.value].vnode == v
  }

  /** The descriptors for files of a vnode. */
  ghost function For(fds: seq<Option<Fde>>, files: map<nat, OpenFile>, v: nat): set<nat> {
    set i: nat | i < |fds| && ReadsV(fds, files, i, v)
  }

  /** What the story of file v, which had these bytes, says about names and bytes is true. */
  ghost predicate NamesTrue(vnodes: map<nat, Vnode>, entries: map<Entry, nat>, nextVnode: nat, v: nat,
                            content: seq<Byte>, t: Story) {
    && v < nextVnode && entries.Keys == t.names && Links(entries, v) == t.own
    && (v in vnodes ==> vnodes[v].content == if t.cut then [] else content)
  }

  /** What it says about descriptors is true. */
  ghost predicate FdsTrue(fds: seq<Option<Fde>>, files: map<nat, OpenFile>, v: nat, t: Story) {
    |fds| == PROC_MAX_FDS && InUse(fds) == t.used && For(fds, files, v) == t.mine
  }

  /** Every descriptor names an open file that is there. */
  ghost predicate Anchored(fds: seq<Option<Fde>>, files: map<nat, OpenFile>) {
    forall i, f :: Names(fds, i, f) ==> f in files
  }

  lemma IsAnchored(vnodes: map<nat, Vnode>, entries: map<Entry, nat>, files: map<nat, OpenFile>,
                   fds: seq<Option<Fde>>, nextVnode: nat, nextFile: nat)
    requires AllCounted(vnodes, entries, files, fds, nextVnode, nextFile, multiset{}, multiset{})
    ensures Anchored(fds, files) && |fds| == PROC_MAX_FDS
  {
  }

  /** Where the table and the files did not change, descriptors read what they read. */
  lemma StillFor(fds: seq<Option<Fde>>, files: map<nat, OpenFile>, fds': seq<Option<Fde>>, files': map<nat, OpenFile>,
                 i: nat, v: nat)
    requires Anchored(fds, files) && Anchored(fds', files') && FilesKept(files, files')
    requires |fds'| == |fds| && i < |fds| && fds'[i] == fds[i]
    ensures ReadsV(fds', files', i, v) <==> ReadsV(fds, files, i, v)
  {
    if fds[i].Some? && fds[i].value.file.Some? {
      assert Names(fds, i, fds[i].value.file.value) && Names(fds', i, fds[i].value.file.value);
    }
  }

  /** One entry of the table changed. */
  lemma OneChanged(fds: seq<Option<Fde>>, files: map<nat, OpenFile>, fds': seq<Option<Fde>>,
                   files': map<nat, OpenFile>, x: nat, d: Option<Fde>, v: nat)
    requires Anchored(fds, files) && Anchored(fds', files') && FilesKept(files, files')
    requires x < |fds| && fds' == fds[x := d]
    ensures InUse(fds') == if d.Some? then InUse(fds) + {x} else InUse(fds) - {x}
    ensures For(fds', files', v) == if ReadsV(fds', files', x, v) then For(fds, files, v) + {x} else For(fds, files, v) - {x}
  {
    hide ReadsV;
    forall i: nat | i < |fds| && i != x
      ensures ReadsV(fds', files', i, v) <==> ReadsV(fds, files, i, v)
    {
      StillFor(fds, files, fds', files', i, v);
    }
    assert forall i: nat :: ReadsV(fds', files', i, v) ==> i < |fds'| by {
      assert forall i: nat :: ReadsV(fds', files', i, v) ==> i < |fds'| by {
        InTable(fds', files', v);
      }
    }
  }

  lemma InTable(fds: seq<Option<Fde>>, files: map<nat, OpenFile>, v: nat)
    ensures forall i: nat :: ReadsV(fds, files, i, v) ==> i < |fds|
  {
  }

  /** No entry changed. */
  lemma NoneChanged(fds: seq<Option<Fde>>, files: map<nat, OpenFile>, files': map<nat, OpenFile>, v: nat)
    requires Anchored(fds, files) && Anchored(fds, files') && FilesKept(files, files')
    ensures For(fds, files', v) == For(fds, files, v)
  {
    hide ReadsV;
    forall i: nat | i < |fds|
      ensures ReadsV(fds, files', i, v) <==> ReadsV(fds, files, i, v)
    {
      StillFor(fds, files, fds, files', i, v);
    }
  }

  /** The copy of a descriptor reads what the original reads. */
  lemma CopyFor(fds: seq<Option<Fde>>, files: map<nat, OpenFile>, fds': seq<Option<Fde>>, files': map<nat, OpenFile>,
                from: nat, to: nat, v: nat)
    requires Anchored(fds, files) && Anchored(fds', files') && FilesKept(files, files')
    requires from < |fds| && fds[from].Some? && to < |fds|
    requires fds' == fds[to := Some(Fde(fds[from].value.file, 1))]
    ensures ReadsV(fds', files', to, v) <==> ReadsV(fds, files, from, v)
  {
    if fds[from].value.file.Some? {
      assert Names(fds, from, fds[from].value.file.value) && Names(fds', to, fds[from].value.file.value);
    }
  }

  lemma {:induction false} LowestIs(fds: seq<Option<Fde>>, from: nat)
    requires |fds| == PROC_MAX_FDS && from <= PROC_MAX_FDS
    ensures var fd := Lowest(InUse(fds), from);
            && (forall i :: from <= i < fd ==> fds[i].Some?)
            && (fd < PROC_MAX_FDS ==> fds[fd].None?)
    decreases PROC_MAX_FDS - from
  {
    if from < PROC_MAX_FDS && from in InUse(fds) {
      LowestIs(fds, from + 1);
    }
  }

  /** The lowest unused descriptor of the table. */
  lemma LowestOf(fds: seq<Option<Fde>>, from: nat)
    requires |fds| == PROC_MAX_FDS && from <= PROC_MAX_FDS
    ensures var fd := Lowest(InUse(fds), from);
            && (forall x :: LowestFree(fds, from, x) <==> x == fd < PROC_MAX_FDS)
            && ((exists i :: from <= i < PROC_MAX_FDS && fds[i].None?) <==> fd < PROC_MAX_FDS)
            && (from == 0 ==> (CanAllocate(fds) <==> 3 <= fd < PROC_MAX_FDS))
  {
    LowestIs(fds, from);
    var fd := Lowest(InUse(fds), from);
    if from == 0 && 3 <= fd < PROC_MAX_FDS {
      assert LowestFree(fds, 0, fd);
    }
  }

  lemma UsedIs(fds: seq<Option<Fde>>, x: nat)
    requires |fds| == PROC_MAX_FDS
    ensures x in InUse(fds) <==> x < PROC_MAX_FDS && fds[x].Some?
  {
  }

  lemma OpenTold(vnodes: map<nat, Vnode>, entries: map<Entry, nat>, next: nat,
                 vnodes': map<nat, Vnode>, entries': map<Entry, nat>, next': nat,
                 v: nat, content: seq<Byte>, t: Story, c: Call)
    requires c.CallOpen? && NamesTrue(vnodes, entries, next, v, content, t)
    requires NamesAfter(entries, entries', c.e, c.flags)
             && Numbered(entries, entries', vnodes, vnodes', next, next', c.e)
             && TruncatedOnly(vnodes, vnodes', Cut(entries, entries', c.e, c.flags))
    ensures NamesTrue(vnodes', entries', next', v, content, Told(t, c))
  {
    hide Says;
    assert v in vnodes'.Keys ==> v in vnodes.Keys;
    forall e
      ensures e in Links(entries', v) <==> e in Links(entries, v)
    {
      assert e in entries'.Keys <==> e in entries.Keys || (c.flags.creat && e == c.e);
    }
    assert c.e in Links(entries, v) <==> c.e in t.own;
  }

  lemma LinkTold(vnodes: map<nat, Vnode>, entries: map<Entry, nat>, next: nat, vnodes': map<nat, Vnode>,
                 entries': map<Entry, nat>, v: nat, content: seq<Byte>, t: Story, c: Call)
    requires c.CallLink? && NamesTrue(vnodes, entries, next, v, content, t)
    requires ContentKept(vnodes, vnodes') && vnodes'.Keys <= vnodes.Keys
    requires entries' == if c.from in entries && c.to !in entries then entries[c.to := entries[c.from]] else entries
    ensures NamesTrue(vnodes', entries', next, v, content, Told(t, c))
  {
    assert v in vnodes'.Keys ==> v in vnodes.Keys;
    assert c.from in Links(entries, v) <==> c.from in t.own;
    assert c.from in entries.Keys <==> c.from in t.names;
    assert c.to in entries.Keys <==> c.to in t.names;
    var own := Told(t, c).own;
    forall e
      ensures e in Links(entries', v) <==> e in own
    {
      assert e in Links(entries, v) <==> e in t.own;
    }
  }

  lemma UnlinkTold(vnodes: map<nat, Vnode>, entries: map<Entry, nat>, next: nat, vnodes': map<nat, Vnode>,
                   v: nat, content: seq<Byte>, t: Story, c: Call)
    requires c.CallUnlink? && NamesTrue(vnodes, entries, next, v, content, t)
    requires ContentKept(vnodes, vnodes') && vnodes'.Keys <= vnodes.Keys
    ensures NamesTrue(vnodes', entries - {c.e}, next, v, content, Told(t, c))
  {
    assert v in vnodes'.Keys ==> v in vnodes.Keys;
    var entries' := entries - {c.e};
    forall e
      ensures e in Links(entries', v) <==> e in t.own - {c.e}
    {
      assert e in Links(entries, v) <==> e in t.own;
    }
  }

  lemma SameTold(vnodes: map<nat, Vnode>, entries: map<Entry, nat>, next: nat, vnodes': map<nat, Vnode>,
                 v: nat, content: seq<Byte>, t: Story, t': Story)
    requires NamesTrue(vnodes, entries, next, v, content, t)
    requires ContentKept(vnodes, vnodes') && vnodes'.Keys <= vnodes.Keys
    requires t'.names == t.names && t'.own == t.own && t'.cut == t.cut
    ensures NamesTrue(vnodes', entries, next, v, content, t')
  {
    assert v in vnodes'.Keys ==> v in vnodes.Keys;
  }

  /** What the story says is true. */
  ghost predicate StoryTrue(s: FileState, v: nat, content: seq<Byte>, t: Story)
    reads s
  {
    NamesTrue(s.vnodes, s.entries, s.nextVnode, v, content, t) && FdsTrue(s.fds, s.files, v, t)
  }

  /** Open, as told. */
  method PerformOpen(s: FileState, c: Call, ghost v: nat, ghost content: seq<Byte>, ghost t: Story)
    returns (r: Result<nat>)
    requires s.Valid() && c.CallOpen? && StoryTrue(s, v, content, t)
    modifies s
    ensures s.Valid() && StoryTrue(s, v, content, Told(t, c)) && r == Says(t, c)
    ensures FilesKept(old(s.files), s.files)
    ensures forall fd: nat, f: nat :: Names(old(s.fds), fd, f) ==> Names(s.fds, fd, f)
  {
    hide AllCounted;
    hide NamesAfter;
    hide Numbered;
    hide TruncatedOnly;
    hide Cut;
    hide NamesTrue;
    hide For;
    hide InUse;
    hide Lowest;
    hide CanAllocate;
    ghost var vnodes0, entries0, next0, files0, fds0 := s.vnodes, s.entries, s.nextVnode, s.files, s.fds;
    IsAnchored(s.vnodes, s.entries, s.files, s.fds, s.nextVnode, s.nextFile);
    NamesOf(vnodes0, entries0, next0, v, content, t, c.e);
    LowestOf(fds0, 0);
    r := s.SysOpen(c.e, c.flags, c.room);
    OpenTold(vnodes0, entries0, next0, s.vnodes, s.entries, s.nextVnode, v, content, t, c);
    IsAnchored(s.vnodes, s.entries, s.files, s.fds, s.nextVnode, s.nextFile);
    if r.Ok? {
      NewNameOf(entries0, s.entries, vnodes0, s.vnodes, next0, s.nextVnode, c.e, c.flags, v);
      OneChanged(fds0, files0, s.fds, s.files, r.value, s.fds[r.value], v);
      NotMine(fds0, files0, r.value, v);
      assert ReadsV(s.fds, s.files, r.value, v) <==> s.entries[c.e] == v;
    }
  }

  lemma NotMine(fds: seq<Option<Fde>>, files: map<nat, OpenFile>, x: nat, v: nat)
    requires x < |fds| && fds[x].None?
    ensures For(fds, files, v) - {x} == For(fds, files, v)
  {
  }

  lemma NamesOf(vnodes: map<nat, Vnode>, entries: map<Entry, nat>, next: nat, v: nat, content: seq<Byte>, t: Story,
                e: Entry)
    requires NamesTrue(vnodes, entries, next, v, content, t)
    ensures (e in t.names <==> e in entries) && (e in t.own <==> e in entries && entries[e] == v) && v < next
  {
    assert e in entries.Keys <==> e in t.names;
    assert e in Links(entries, v) <==> e in t.own;
  }

  lemma NewNameOf(entries: map<Entry, nat>, entries': map<Entry, nat>, vnodes: map<nat, Vnode>,
                  vnodes': map<nat, Vnode>, next: nat, next': nat, e: Entry, flags: OpenFlags, v: nat)
    requires NamesAfter(entries, entries', e, flags) && Numbered(entries, entries', vnodes, vnodes', next, next', e)
    requires v < next && e in entries'
    ensures entries'[e] == v <==> e in entries && entries[e] == v
  {
  }

  /** Link and unlink, as told. */
  method PerformName(s: FileState, c: Call, ghost v: nat, ghost content: seq<Byte>, ghost t: Story)
    returns (r: Result<nat>)
    requires s.Valid() && (c.CallLink? || c.CallUnlink?) && StoryTrue(s, v, content, t)
    modifies s`vnodes, s`entries, s`heldVnodes
    ensures s.Valid() && StoryTrue(s, v, content, Told(t, c)) && r == Says(t, c)
  {
    hide AllCounted;
    hide ContentKept;
    hide NamesTrue;
    hide FdsTrue;
    ghost var vnodes0, entries0, next0 := s.vnodes, s.entries, s.nextVnode;
    if c.CallLink? {
      NamesOf(vnodes0, entries0, next0, v, content, t, c.from);
      NamesOf(vnodes0, entries0, next0, v, content, t, c.to);
      var done := s.Link(c.from, c.to);
      LinkTold(vnodes0, entries0, next0, s.vnodes, s.entries, v, content, t, c);
      r := if done.Ok? then Ok(0) else Err(done.errno);
    } else {
      NamesOf(vnodes0, entries0, next0, v, content, t, c.e);
      var done := s.Unlink(c.e);
      UnlinkTold(vnodes0, entries0, next0, s.vnodes, v, content, t, c);
      r := if done.Ok? then Ok(0) else Err(done.errno);
    }
    SameFdsTold(s.fds, s.files, v, t, Told(t, c));
  }

  lemma SameFdsTold(fds: seq<Option<Fde>>, files: map<nat, OpenFile>, v: nat, t: Story, t': Story)
    requires FdsTrue(fds, files, v, t) && t'.used == t.used && t'.mine == t.mine
    ensures FdsTrue(fds, files, v, t')
  {
  }

  /** Close, as told. */
  method PerformClose(s: FileState, c: Call, ghost v: nat, ghost content: seq<Byte>, ghost t: Story)
    returns (r: Result<nat>)
    requires s.Valid() && c.CallClose? && StoryTrue(s, v, content, t)
    modifies s
    ensures s.Valid() && StoryTrue(s, v, content, Told(t, c)) && r == Says(t, c)
    ensures FilesKept(old(s.files), s.files)
    ensures forall fd: nat, f: nat :: Spares(c, fd) && Names(old(s.fds), fd, f) ==> Names(s.fds, fd, f)
  {
    hide AllCounted;
    hide ContentKept;
    hide NamesTrue;
    hide For;
    hide InUse;
    hide FilesKept;
    ghost var vnodes0, files0, fds0 := s.vnodes, s.files, s.fds;
    IsAnchored(s.vnodes, s.entries, s.files, s.fds, s.nextVnode, s.nextFile);
    UsedIs(fds0, c.fd);
    MineUsed(fds0, files0, v);
    var done := s.SysClose(c.fd);
    r := if done.Ok? then Ok(0) else Err(done.errno);
    IsAnchored(s.vnodes, s.entries, s.files, s.fds, s.nextVnode, s.nextFile);
    SameTold(vnodes0, s.entries, s.nextVnode, s.vnodes, v, content, t, Told(t, c));
    FdsTold(fds0, files0, s.fds, s.files, v, 0, c.fd);
  }

  lemma MineUsed(fds: seq<Option<Fde>>, files: map<nat, OpenFile>, v: nat)
    ensures For(fds, files, v) <= InUse(fds)
  {
  }

  /** Dup and the duplicating commands of fcntl, as told. */
  method PerformDup(s: FileState, c: Call, ghost v: nat, ghost content: seq<Byte>, ghost t: Story)
    returns (r: Result<nat>)
    requires s.Valid() && (c.CallDup? || c.CallDupFrom?) && StoryTrue(s, v, content, t)
    modifies s
    ensures s.Valid() && StoryTrue(s, v, content, Told(t, c)) && r == Says(t, c)
    ensures FilesKept(old(s.files), s.files)
    ensures forall fd: nat, f: nat :: Names(old(s.fds), fd, f) ==> Names(s.fds, fd, f)
  {
    hide AllCounted;
    hide ContentKept;
    hide NamesTrue;
    hide For;
    hide InUse;
    hide Lowest;
    hide FilesKept;
    hide CanAllocate;
    ghost var vnodes0, files0, fds0 := s.vnodes, s.files, s.fds;
    IsAnchored(s.vnodes, s.entries, s.files, s.fds, s.nextVnode, s.nextFile);
    UsedIs(fds0, c.fd);
    SameContent(s.vnodes);
    if c.CallDup? {
      LowestOf(fds0, 0);
      r := s.SysDup(c.fd, c.room);
    } else {
      if 0 <= c.min < PROC_MAX_FDS {
        LowestOf(fds0, if c.min < 3 then 3 else c.min);
      }
      r := s.SysDupFrom(c.fd, c.min, c.room);
    }
    IsAnchored(s.vnodes, s.entries, s.files, s.fds, s.nextVnode, s.nextFile);
    SameTold(vnodes0, s.entries, s.nextVnode, s.vnodes, v, content, t, Told(t, c));
    FdsTold(fds0, files0, s.fds, s.files, v, c.fd, if r.Ok? then r.value else 0);
  }

  /** Dup2, as told. */
  method PerformDup2(s: FileState, c: Call, ghost v: nat, ghost content: seq<Byte>, ghost t: Story)
    returns (r: Result<nat>)
    requires s.Valid() && c.CallDup2? && StoryTrue(s, v, content, t)
    modifies s
    ensures s.Valid() && StoryTrue(s, v, content, Told(t, c)) && r == Says(t, c)
    ensures FilesKept(old(s.files), s.files)
    ensures forall fd: nat, f: nat :: Spares(c, fd) && Names(old(s.fds), fd, f) ==> Names(s.fds, fd, f)
  {
    hide AllCounted;
    hide ContentKept;
    hide NamesTrue;
    hide For;
    hide InUse;
    hide FilesKept;
    ghost var vnodes0, files0, fds0 := s.vnodes, s.files, s.fds;
    IsAnchored(s.vnodes, s.entries, s.files, s.fds, s.nextVnode, s.nextFile);
    UsedIs(fds0, c.fd);
    r := s.SysDup2(c.fd, c.target, c.room);
    IsAnchored(s.vnodes, s.entries, s.files, s.fds, s.nextVnode, s.nextFile);
    SameTold(vnodes0, s.entries, s.nextVnode, s.vnodes, v, content, t, Told(t, c));
    FdsTold(fds0, files0, s.fds, s.files, v, c.fd, c.target);
  }

  /** What one changed descriptor means for the ones of a vnode. */
  lemma FdsTold(fds: seq<Option<Fde>>, files: map<nat, OpenFile>, fds': seq<Option<Fde>>, files': map<nat, OpenFile>,
                v: nat, from: nat, to: nat)
    requires Anchored(fds, files) && Anchored(fds', files') && FilesKept(files, files')
    ensures fds' == fds ==> For(fds', files', v) == For(fds, files, v)
    ensures to < |fds| && fds' == fds[to := None] ==>
              InUse(fds') == InUse(fds) - {to} && For(fds', files', v) == For(fds, files, v) - {to}
    ensures to < |fds| && from < |fds| && fds[from].Some? && fds' == fds[to := Some(Fde(fds[from].value.file, 1))] ==>
              && InUse(fds') == InUse(fds) + {to}
              && For(fds', files', v) ==
                 if from in For(fds, files, v) then For(fds, files, v) + {to} else For(fds, files, v) - {to}
  {
    hide FilesKept;
    if fds' == fds {
      NoneChanged(fds, files, files', v);
    }
    if to < |fds| {
      if fds' == fds[to := None] {
        OneChanged(fds, files, fds', files', to, None, v);
      }
      if from < |fds| && fds[from].Some? && fds' == fds[to := Some(Fde(fds[from].value.file, 1))] {
        OneChanged(fds, files, fds', files', to, Some(Fde(fds[from].value.file, 1)), v);
        CopyFor(fds, files, fds', files', from, to, v);
      }
    }
  }

  method Perform(s: FileState, c: Call, ghost v: nat, ghost content: seq<Byte>, ghost t: Story)
    returns (r: Result<nat>)
    requires s.Valid() && StoryTrue(s, v, content, t)
    modifies s
    ensures s.Valid() && StoryTrue(s, v, content, Told(t, c)) && r == Says(t, c)
    ensures FilesKept(old(s.files), s.files)
    ensures forall fd: nat, f: nat :: Spares(c, fd) && Names(old(s.fds), fd, f) ==> Names(s.fds, fd, f)
  {
    hide AllCounted;
    hide StoryTrue;
    hide Told;
    hide Says;
    if c.CallOpen? {
      r := PerformOpen(s, c, v, content, t);
    } else if c.CallLink? || c.CallUnlink? {
      r := PerformName(s, c, v, content, t);
    } else if c.CallClose? {
      r := PerformClose(s, c, v, content, t);
    } else if c.CallDup2? {
      r := PerformDup2(s, c, v, content, t);
    } else {
      r := PerformDup(s, c, v, content, t);
    }
  }

  lemma SameContent(vnodes: map<nat, Vnode>)
    ensures ContentKept(vnodes, vnodes)
  {
  }

  /** Vnodes and open files exist exactly while something refers to them, and each count is the number of those that
      do. */
  ghost predicate Exact(vnodes: map<nat, Vnode>, entries: map<Entry, nat>, files: map<nat, OpenFile>,
                        fds: seq<Option<Fde>>) {
    && (forall v :: v in vnodes <==> Links(entries, v) != {} || Openers(files, v) != {})
    && (forall v :: v in vnodes ==> vnodes[v].refcount == |Links(entries, v)| + |Openers(files, v)|)
    && (forall f :: f in files <==> exists i :: Names(fds, i, f))
    && (forall f :: f in files ==> files[f].refcount == |FdsOf(fds, f)|)
  }

  lemma ValidIsExact(vnodes: map<nat, Vnode>, entries: map<Entry, nat>, files: map<nat, OpenFile>,
                     fds: seq<Option<Fde>>, nextVnode: nat, nextFile: nat)
    requires AllCounted(vnodes, entries, files, fds, nextVnode, nextFile, multiset{}, multiset{})
    ensures Exact(vnodes, entries, files, fds)
  {
    hide Links;
    hide Openers;
    hide FdsOf;
    forall v
      ensures v in vnodes <==> Links(entries, v) != {} || Openers(files, v) != {}
    {
      AliveExactly(vnodes, entries, files, v);
    }
    forall f
      ensures f in files <==> exists i :: Names(fds, i, f)
    {
      OpenExactly(files, fds, f);
    }
  }

  /** Any run of calls keeps every count exact. The calls alone tell every answer, which names and which descriptors a
      file has, whether it still has its bytes, and so whether it still exists; a descriptor that was not closed reads
      the same open file, also after the last name is gone. */
  method Run(s: FileState, calls: seq<Call>, ghost v: nat, ghost fd: nat, ghost f: nat) returns (answers: seq<Result<nat>>)
    requires s.Valid() && v in s.vnodes
    modifies s
    ensures s.Valid() && Exact(s.vnodes, s.entries, s.files, s.fds)
    ensures var t0 := Story(old(s.entries).Keys, Links(old(s.entries), v), false, InUse(old(s.fds)),
                            For(old(s.fds), old(s.files), v));
            var t := ToldAll(t0, calls);
            && answers == SaysAll(t0, calls)
            && s.entries.Keys == t.names && Links(s.entries, v) == t.own
            && InUse(s.fds) == t.used && For(s.fds, s.files, v) == t.mine
            && (v in s.vnodes <==> t.own != {} || t.mine != {})
            && (v in s.vnodes ==> s.vnodes[v].content == if t.cut then [] else old(s.vnodes)[v].content)
    ensures Keeps(calls, fd) && Reads(old(s.fds), old(s.files), fd, f, v) ==> Reads(s.fds, s.files, fd, f, v)
  {
    hide AllCounted;
    hide Reads;
    hide ToldAll;
    hide SaysAll;
    hide Exact;
    hide StoryTrue;
    ghost var content, fds0, files0 := s.vnodes[v].content, s.fds, s.files;
    ghost var t0 := Story(s.entries.Keys, Links(s.entries, v), false, InUse(s.fds), For(s.fds, s.files, v));
    Begins(s, v, calls, t0);
    answers := [];
    for i := 0 to |calls|
      invariant s.Valid() && StoryTrue(s, v, content, ToldAll(t0, calls[..i])) && answers == SaysAll(t0, calls[..i])
      invariant Keeps(calls, fd) && Reads(fds0, files0, fd, f, v) ==> Reads(s.fds, s.files, fd, f, v)
    {
      ghost var t, fds1, files1 := ToldAll(t0, calls[..i]), s.fds, s.files;
      assert Keeps(calls, fd) ==> Spares(calls[i], fd);
      var r := Perform(s, calls[i], v, content, t);
      answers := answers + [r];
      ToldMore(t0, calls, i);
      StillReads(s.vnodes, s.entries, s.files, s.fds, s.nextVnode, s.nextFile, files1, fds1, fd, f, v);
    }
    assert calls[..|calls|] == calls;
    ValidIsExact(s.vnodes, s.entries, s.files, s.fds, s.nextVnode, s.nextFile);
    Ends(s, v, content, ToldAll(t0, calls));
  }

  predicate Keeps(calls: seq<Call>, fd: nat) {
    forall i :: 0 <= i < |calls| ==> Spares(calls[i], fd)
  }

  /** The descriptor names open file f, whose vnode is v. */
  ghost predicate Reads(fds: seq<Option<Fde>>, files: map<nat, OpenFile>, fd: nat, f: nat, v: nat) {
    Names(fds, fd, f) && f in files && files[f].vnode == v
  }

  lemma Begins(s: FileState, v: nat, calls: seq<Call>, t: Story)
    requires s.Valid() && v in s.vnodes
    requires t == Story(s.entries.Keys, Links(s.entries, v), false, InUse(s.fds), For(s.fds, s.files, v))
    ensures StoryTrue(s, v, s.vnodes[v].content, ToldAll(t, calls[..0])) && SaysAll(t, calls[..0]) == []
  {
    hide VnodesCounted;
    hide FilesCounted;
    hide For;
    hide InUse;
    assert v in s.vnodes.Keys;
  }

  lemma ToldMore(t: Story, calls: seq<Call>, i: nat)
    requires i < |calls|
    ensures ToldAll(t, calls[..i + 1]) == Told(ToldAll(t, calls[..i]), calls[i])
    ensures SaysAll(t, calls[..i + 1]) == SaysAll(t, calls[..i]) + [Says(ToldAll(t, calls[..i]), calls[i])]
  {
    hide Told;
    hide Says;
    assert calls[..i + 1][..i] == calls[..i];
  }

  lemma StillReads(vnodes: map<nat, Vnode>, entries: map<Entry, nat>, files: map<nat, OpenFile>,
                   fds: seq<Option<Fde>>, nextVnode: nat, nextFile: nat,
                   files0: map<nat, OpenFile>, fds0: seq<Option<Fde>>, fd: nat, f: nat, v: nat)
    requires AllCounted(vnodes, entries, files, fds, nextVnode, nextFile, multiset{}, multiset{})
    requires FilesKept(files0, files)
    ensures Reads(fds0, files0, fd, f, v) && (Names(fds0, fd, f) ==> Names(fds, fd, f)) ==> Reads(fds, files, fd, f, v)
  {
  }

  /** A vnode is there exactly while it has a name or a descriptor. */
  lemma Ends(s: FileState, v: nat, content: seq<Byte>, t: Story)
    requires s.Valid() && StoryTrue(s, v, content, t)
    ensures s.entries.Keys == t.names && Links(s.entries, v) == t.own
    ensures InUse(s.fds) == t.used && For(s.fds, s.files, v) == t.mine
    ensures v in s.vnodes <==> t.own != {} || t.mine != {}
    ensures v in s.vnodes ==> s.vnodes[v].content == if t.cut then [] else content
  {
    AliveExactly(s.vnodes, s.entries, s.files, v);
    if f :| f in Openers(s.files, v) {
      OpenExactly(s.files, s.fds, f);
      var i :| Names(s.fds, i, f);
      assert i in For(s.fds, s.files, v);
    }
    if i :| i in For(s.fds, s.files, v) {
      assert s.fds[i].value.file.value in Openers(s.files, v);
    }
  }

  lemma NotTruncated(v0: map<nat, Vnode>, v1: map<nat, Vnode>)
    requires ContentKept(v0, v1)
    ensures TruncatedOnly(v0, v1, None)
  {
  }

  lemma TruncatedStep(v0: map<nat, Vnode>, v1: map<nat, Vnode>, v2: map<nat, Vnode>, v3: map<nat, Vnode>,
                      cut: Option<nat>)
    requires ContentKept(v0, v1) && v0.Keys <= v1.Keys && ContentKept(v2, v3)
    requires cut.Some? ==> cut.value in v1
    requires v2 == if cut.Some? then v1[cut.value := v1[cut.value].(content := [])] else v1
    ensures TruncatedOnly(v0, v3, cut)
  {
    forall v | v in v0 && v in v3
      ensures v3[v].content == if cut == Some(v) then [] else v0[v].content
    {
      assert v in v0.Keys && v in v1.Keys && v in v2;
    }
  }

  lemma HoldAndDrop(held: multiset<nat>, v: nat)
    ensures v in held + multiset{v} && held + multiset{v} - multiset{v} == held
  {
  }

  lemma OpenVnodes(vnodes: map<nat, Vnode>, entries: map<Entry, nat>, files: map<nat, OpenFile>, held: multiset<nat>)
    requires VnodesCounted(vnodes, entries, files, held)
    ensures forall f :: f in files ==> files[f].vnode in vnodes
  {
  }

  /** The open gets as far as the vnode. */
  predicate Reaches(entries: map<Entry, nat>, e: Entry, flags: OpenFlags) {
    (e in entries || flags.creat) && !(flags.creat && flags.excl) && !flags.directory
  }

  /** Why an open does not get that far. */
  function OpenErrno(entries: map<Entry, nat>, e: Entry, flags: OpenFlags): Errno {
    if e !in entries && !flags.creat then ENOENT else if flags.creat && flags.excl then EEXIST else ENOTDIR
  }

  lemma OpenErrnoIs(entries: map<Entry, nat>, e: Entry, flags: OpenFlags)
    requires !Reaches(entries, e, flags)
    ensures var n := OpenErrno(entries, e, flags);
            && (n == ENOENT <==> e !in entries && !flags.creat)
            && (n == EEXIST <==> flags.creat && flags.excl)
            && (n == ENOTDIR <==> (e in entries || flags.creat) && !(flags.creat && flags.excl) && flags.directory)
            && (n == ENOENT || n == EEXIST || n == ENOTDIR)
  {
  }

  lemma ReachesIs(entries: map<Entry, nat>, e: Entry, flags: OpenFlags)
    ensures Reaches(entries, e, flags) ==>
              && !(e !in entries && !flags.creat) && !(flags.creat && flags.excl) && !flags.directory
  {
  }

  /** O_CREAT makes sure of the name; no other name changes. */
  ghost predicate NamesAfter(entries: map<Entry, nat>, entries': map<Entry, nat>, e: Entry, flags: OpenFlags) {
    && entries'.Keys == entries.Keys + (if flags.creat then {e} else {})
    && forall x :: x in entries ==> entries'[x] == entries[x]
  }

  /** A name that was not there is the one of a new vnode, numbered by the counter; no other vnode is new. */
  ghost predicate Numbered(entries: map<Entry, nat>, entries': map<Entry, nat>, vnodes: map<nat, Vnode>,
                           vnodes': map<nat, Vnode>, next: nat, next': nat, e: Entry) {
    && next <= next' && vnodes'.Keys <= vnodes.Keys + {next}
    && (e in entries' && e !in entries ==> entries'[e] == next < next')
  }

  /** The vnode that an open truncates. */
  ghost function Cut(entries: map<Entry, nat>, entries': map<Entry, nat>, e: Entry, flags: OpenFlags): Option<nat> {
    if flags.trunc && Reaches(entries, e, flags) && e in entries' then Some(entries'[e]) else None
  }

  ghost predicate TruncatedOnly(vnodes: map<nat, Vnode>, vnodes': map<nat, Vnode>, cut: Option<nat>) {
    forall v :: v in vnodes && v in vnodes' ==>
      vnodes'[v].content == if cut == Some(v) then [] else vnodes[v].content
  }

  lemma VnodeThere(vnodes: map<nat, Vnode>, entries: map<Entry, nat>, files: map<nat, OpenFile>, held: multiset<nat>,
                   v: nat)
    requires VnodesCounted(vnodes, entries, files, held) && v in held
    ensures v in vnodes && vnodes[v].refcount > 0
  {
  }

  lemma FileThere(files: map<nat, OpenFile>, fds: seq<Option<Fde>>, held: multiset<nat>, f: nat)
    requires FilesCounted(files, fds, held) && f in held
    ensures f in files && files[f].refcount > 0
  {
  }
}
