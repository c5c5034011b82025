/** Runs of the buffer cache: whatever clients read, edit, write, hold, pin and let go, in whatever order, synced and
    invalidated in between, the cache answers like a plain array of blocks with counters. */
module CacheRuns {
  import opened Options
  import opened Blocks
  import opened CacheIndex
  import opened BufferCache

  // ---------------------------------------------------------------- the plain array

  /** A call of a client, who names a buffer it holds or has pinned by the block. */
  datatype Call =
    | Get(key: Key)
    | Change(key: Key, data: seq<Byte>)
    | Put(key: Key, sync: bool)
    | Release(key: Key)
    | Pin(key: Key)
    | Unpin(key: Key)
    | Sync(target: Option<nat>)
    | Forget(dev: nat)

  /** What the clients see: the blocks, who holds and pins what, and what was changed and not yet written. */
  datatype Clients = Clients(store: imap<Key, seq<Byte>>, refs: multiset<Key>, pins: multiset<Key>, changed: set<Key>)

  /** The blocks in use. */
  ghost function Used(c: Clients): set<Key> {
    (set k | k in c.refs) + (set k | k in c.pins)
  }

  /** Among 256 buffers there is one for the block. */
  ghost predicate Served(c: Clients, key: Key) {
    key in Used(c) || |Used(c)| < NBUF
  }

  /** The discipline of clients: blocks are on disk, buffers are held when used, and a changed buffer is written before
      it is let go. */
  ghost predicate Allowed(c: Clients, devices: nat, call: Call) {
    match call
    case Get(key) => key in c.store
    case Change(key, data) => key in Used(c) && |data| == BSIZE
    case Put(key, _) => key in Used(c)
    case Release(key) => key in c.refs && (key in c.changed ==> c.refs[key] + c.pins[key] > 1)
    case Pin(key) => key in Used(c)
    case Unpin(key) => key in Used(c) && (key in c.changed ==> key in c.refs || c.pins[key] > 1)
    case Sync(_) => true
    case Forget(dev) => dev < devices
  }

  ghost function After(c: Clients, call: Call): Clients {
    match call
    case Get(key) => if Served(c, key) then c.(refs := c.refs + multiset{key}) else c
    case Change(key, data) => c.(store := c.store[key := data], changed := c.changed + {key})
    case Put(key, _) => c.(changed := c.changed - {key})
    case Release(key) => c.(refs := c.refs - multiset{key})
    case Pin(key) => c.(pins := c.pins + multiset{key})
    case Unpin(key) => c.(pins := c.pins - multiset{key})
    case Sync(_) => c
    case Forget(_) => c
  }

  ghost function Answer(c: Clients, call: Call): Option<seq<Byte>> {
    if call.Get? && Served(c, call.key) && call.key in c.store then Some(c.store[call.key]) else None
  }

  ghost function AfterAll(c: Clients, calls: seq<Call>): Clients {
    if calls == [] then c else After(AfterAll(c, calls[..|calls| - 1]), calls[|calls| - 1])
  }

  ghost function Answers(c: Clients, calls: seq<Call>): seq<Option<seq<Byte>>> {
    if calls == [] then []
    else Answers(c, calls[..|calls| - 1]) + [Answer(AfterAll(c, calls[..|calls| - 1]), calls[|calls| - 1])]
  }

  ghost predicate AllAllowed(c: Clients, devices: nat, calls: seq<Call>) {
    forall i :: 0 <= i < |calls| ==> Allowed(AfterAll(c, calls[..i]), devices, calls[i])
  }

  /** The block is in use before the run and after each call of it. */
  ghost predicate UsedThroughout(c: Clients, calls: seq<Call>, key: Key) {
    forall i :: 0 <= i <= |calls| ==> key in Used(AfterAll(c, calls[..i]))
  }

  // ---------------------------------------------------------------- what the cache stands for

  /** The plain array of blocks that the cache stands for. */
  ghost function Store(bufs: seq<Buf>, disk: seq<seq<Byte>>): imap<Key, seq<Byte>> {
    imap k | OnDisk(disk, k) :: Logical(bufs, disk, k)
  }

  ghost predicate Cached(bufs: seq<Buf>, key: Key) {
    exists i :: Holds(bufs, i, key)
  }

  /** The counters of the buffers are those of the clients. */
  ghost predicate Counted(bufs: seq<Buf>, c: Clients) {
    && (forall i :: 0 <= i < |bufs| && bufs[i].key.Some? ==> HasCounts(bufs[i], c, bufs[i].key.value))
    && (forall k :: k in Used(c) ==> Cached(bufs, k))
  }

  ghost predicate HasCounts(b: Buf, c: Clients, key: Key) {
    b.refcnt == c.refs[key] && b.pins == c.pins[key]
  }

  ghost predicate Noted(bufs: seq<Buf>, edited: set<nat>, c: Clients) {
    forall i: nat :: i in edited && i < |bufs| && bufs[i].key.Some? ==> bufs[i].key.value in c.changed
  }

  /** The cache stands for what the clients see. */
  ghost predicate StandsFor(bufs: seq<Buf>, disk: seq<seq<Byte>>, edited: set<nat>, c: Clients) {
    && NothingLost(bufs, edited) && Store(bufs, disk) == c.store && Counted(bufs, c) && Noted(bufs, edited, c)
  }

  /** Buffers in use stay where they are. */
  ghost predicate Stay(bufs: seq<Buf>, bufs': seq<Buf>) {
    |bufs'| == |bufs| && forall i :: 0 <= i < |bufs| && InUse(bufs[i]) ==> bufs'[i].key == bufs[i].key
  }

  lemma SameStore(b0: seq<Buf>, d0: seq<seq<Byte>>, b1: seq<Buf>, d1: seq<seq<Byte>>)
    requires SameBlocks(b0, d0, b1, d1)
    ensures Store(b1, d1) == Store(b0, d0)
  {
    hide OnDisk;
    hide Logical;
  }

  lemma EditedStore(b0: seq<Buf>, b1: seq<Buf>, disk: seq<seq<Byte>>, key: Key, data: seq<Byte>)
    requires OnDisk(disk, key)
    requires forall k :: OnDisk(disk, k) ==> Logical(b1, disk, k) == if k == key then data else Logical(b0, disk, k)
    ensures Store(b1, disk) == Store(b0, disk)[key := data]
  {
    hide OnDisk;
    hide Logical;
  }

  // ---------------------------------------------------------------- one call

  lemma UsedCounts(c: Clients, key: Key)
    ensures key in Used(c) <==> c.refs[key] + c.pins[key] > 0
  {
  }

  /** A block in use has a buffer in use. */
  lemma UsedBuffer(bufs: seq<Buf>, c: Clients, i: nat)
    requires Counted(bufs, c) && i < |bufs| && bufs[i].key.Some?
    ensures bufs[i].key.value in Used(c) <==> InUse(bufs[i])
  {
    UsedCounts(c, bufs[i].key.value);
    assert HasCounts(bufs[i], c, bufs[i].key.value);
  }

  /** The buffer of a block that was got has one reference more. */
  lemma GetCounts(bufs: seq<Buf>, bufs': seq<Buf>, c: Clients, i: nat, key: Key)
    requires Counted(bufs, c) && OneEach(bufs') && i < |bufs| == |bufs'| && bufs' == bufs[i := bufs'[i]]
    requires Holds(bufs', i, key)
    requires bufs'[i].refcnt == 1 + (if Holds(bufs, i, key) then bufs[i].refcnt else 0)
    requires bufs'[i].pins == (if Holds(bufs, i, key) then bufs[i].pins else 0)
    requires !Holds(bufs, i, key) ==> !InUse(bufs[i])
    ensures Counted(bufs', c.(refs := c.refs + multiset{key}))
  {
    hide InUse;
    var c' := c.(refs := c.refs + multiset{key});
    if !Holds(bufs, i, key) {
      assert forall j :: Holds(bufs, j, key) ==> Holds(bufs', j, key);
      UsedCounts(c, key);
    } else {
      assert HasCounts(bufs[i], c, key);
    }
    forall j | 0 <= j < |bufs'| && bufs'[j].key.Some?
      ensures HasCounts(bufs'[j], c', bufs'[j].key.value)
    {
      assert j != i ==> HasCounts(bufs[j], c, bufs[j].key.value) && bufs'[j].key.value != key;
    }
    forall k | k in Used(c')
      ensures Cached(bufs', k)
    {
      if k == key {
        assert Holds(bufs', i, key);
      } else {
        UsedCounts(c', k);
        UsedCounts(c, k);
        var j :| Holds(bufs, j, k);
        if j == i {
          UsedBuffer(bufs, c, i);
        }
        assert Holds(bufs', j, k);
      }
    }
  }

  /** Only the counters of one buffer change, and those of its block with them. */
  lemma OneCounts(bufs: seq<Buf>, bufs': seq<Buf>, c: Clients, c': Clients, i: nat, key: Key)
    requires Counted(bufs, c) && OneEach(bufs) && Holds(bufs, i, key) && |bufs'| == |bufs| && bufs' == bufs[i := bufs'[i]]
    requires bufs'[i].key == bufs[i].key && HasCounts(bufs'[i], c', key)
    requires forall k :: k != key ==> c'.refs[k] == c.refs[k] && c'.pins[k] == c.pins[k]
    ensures Counted(bufs', c')
  {
    forall j | 0 <= j < |bufs'| && bufs'[j].key.Some?
      ensures HasCounts(bufs'[j], c', bufs'[j].key.value)
    {
      assert j != i ==> HasCounts(bufs[j], c, bufs[j].key.value) && bufs[j].key.value != key;
    }
    forall k | k in Used(c')
      ensures Cached(bufs', k)
    {
      if k == key {
        assert Holds(bufs', i, key);
      } else {
        UsedCounts(c', k);
        UsedCounts(c, k);
        var j :| Holds(bufs, j, k);
        assert Holds(bufs', j, k);
      }
    }
  }

  /** Buffers nobody uses may go. */
  lemma DroppedCounts(bufs: seq<Buf>, bufs': seq<Buf>, c: Clients)
    requires Counted(bufs, c) && OnlyDropped(bufs, bufs')
    ensures Counted(bufs', c)
  {
    hide InUse;
    forall i | 0 <= i < |bufs'| && bufs'[i].key.Some?
      ensures HasCounts(bufs'[i], c, bufs'[i].key.value)
    {
      assert HasCounts(bufs[i], c, bufs[i].key.value);
    }
    forall k | k in Used(c)
      ensures Cached(bufs', k)
    {
      var j :| Holds(bufs, j, k);
      UsedBuffer(bufs, c, j);
      assert Holds(bufs', j, k);
    }
  }

  lemma CleanedCounts(bufs: seq<Buf>, bufs': seq<Buf>, c: Clients)
    requires Counted(bufs, c) && OnlyCleaned(bufs, bufs')
    ensures Counted(bufs', c)
  {
    forall i | 0 <= i < |bufs'| && bufs'[i].key.Some?
      ensures HasCounts(bufs'[i], c, bufs'[i].key.value)
    {
      assert HasCounts(bufs[i], c, bufs[i].key.value);
    }
    forall k | k in Used(c)
      ensures Cached(bufs', k)
    {
      var j :| Holds(bufs, j, k);
      assert Holds(bufs', j, k);
    }
  }

  // ---------------------------------------------------------------- counting buffers in use

  ghost function UsedUpTo(bufs: seq<Buf>, n: nat): set<Key>
    requires n <= |bufs|
  {
    set i | 0 <= i < n && InUse(bufs[i]) && bufs[i].key.Some? :: bufs[i].key.value
  }

  lemma {:induction false} CountUsed(bufs: seq<Buf>, n: nat)
    requires n <= |bufs| && OneEach(bufs) && forall i :: 0 <= i < |bufs| && InUse(bufs[i]) ==> bufs[i].key.Some?
    ensures |UsedUpTo(bufs, n)| <= n
    ensures |UsedUpTo(bufs, n)| == n <==> forall i :: 0 <= i < n ==> InUse(bufs[i])
  {
    hide InUse;
    if n > 0 {
      CountUsed(bufs, n - 1);
      var before, now := UsedUpTo(bufs, n - 1), UsedUpTo(bufs, n);
      if InUse(bufs[n - 1]) {
        assert bufs[n - 1].key.value !in before;
        assert now == before + {bufs[n - 1].key.value};
      } else {
        assert now == before;
      }
    }
  }

  /** A block is served exactly if it has a buffer or some buffer is not in use. */
  lemma ServedExactly(bufs: seq<Buf>, c: Clients, key: Key)
    requires |bufs| == NBUF && OneEach(bufs) && Counted(bufs, c)
    requires forall i :: 0 <= i < |bufs| && InUse(bufs[i]) ==> bufs[i].key.Some?
    ensures Served(c, key) <==> Cached(bufs, key) || exists i :: 0 <= i < NBUF && !InUse(bufs[i])
  {
    hide InUse;
    CountUsed(bufs, NBUF);
    forall k
      ensures k in Used(c) <==> k in UsedUpTo(bufs, NBUF)
    {
      if k in Used(c) {
        var i :| Holds(bufs, i, k);
        UsedBuffer(bufs, c, i);
      }
      if k in UsedUpTo(bufs, NBUF) {
        var i :| 0 <= i < NBUF && InUse(bufs[i]) && bufs[i].key == Some(k);
        UsedBuffer(bufs, c, i);
      }
    }
    assert Used(c) == UsedUpTo(bufs, NBUF);
    if i :| Holds(bufs, i, key) {
      UsedBuffer(bufs, c, i);
    }
  }

  // ---------------------------------------------------------------- runs

  /** bread. */
  method GetBlock(cache: Cache, key: Key, ghost c: Clients) returns (data: Option<seq<Byte>>)
    requires cache.Valid() && StandsFor(cache.bufs, cache.disk, cache.edited, c) && key in c.store
    modifies cache
    ensures cache.Valid() && StandsFor(cache.bufs, cache.disk, cache.edited, After(c, Get(key)))
    ensures data == Answer(c, Get(key)) && Stay(old(cache.bufs), cache.bufs)
  {
    hide OnDisk;
    hide BlockOf;
    hide SameBlocks;
    hide Coherent;
    hide Logical;
    hide Counted;
    hide Victim;
    ghost var b0, d0 := cache.bufs, cache.disk;
    Parts(cache.devices, b0, cache.chains, cache.lru, d0, cache.edited);
    KeyFacts(cache.devices, b0, cache.chains, cache.lru, d0, cache.edited, key);
    ServedExactly(b0, c, key);
    var i := cache.Bread(key);
    if i.None? {
      return None;
    }
    data := Some(cache.bufs[i.value].data);
    Parts(cache.devices, cache.bufs, cache.chains, cache.lru, cache.disk, cache.edited);
    SameStore(b0, d0, cache.bufs, cache.disk);
    GetCounts(b0, cache.bufs, c, i.value, key);
  }

  lemma Parts(devices: seq<Device>, bufs: seq<Buf>, chains: seq<seq<nat>>, lru: seq<nat>, disk: seq<seq<Byte>>,
              edited: set<nat>)
    requires Coherent(devices, bufs, chains, lru, disk, edited)
    ensures |bufs| == NBUF && OneEach(bufs) && |disk| == |devices|
    ensures forall i :: 0 <= i < |bufs| && InUse(bufs[i]) ==> bufs[i].key.Some?
    ensures forall i :: i in edited ==> i < NBUF && bufs[i].key.Some?
  {
  }

  lemma KeyFacts(devices: seq<Device>, bufs: seq<Buf>, chains: seq<seq<nat>>, lru: seq<nat>, disk: seq<seq<Byte>>,
                 edited: set<nat>, key: Key)
    requires Coherent(devices, bufs, chains, lru, disk, edited)
    ensures key in Store(bufs, disk) ==> OnDisk(disk, key)
    ensures OnDisk(disk, key) ==> key.dev < |devices|
    ensures Cached(bufs, key) ==> OnDisk(disk, key) && key.dev < |devices|
  {
    hide Hash;
    hide Ring;
  }

  /** The client finds the buffer it uses. */
  method UsedAt(cache: Cache, key: Key, ghost c: Clients) returns (i: nat)
    requires cache.Valid() && Counted(cache.bufs, c) && key in Used(c)
    ensures Holds(cache.bufs, i, key) && i < NBUF && InUse(cache.bufs[i]) && HasCounts(cache.bufs[i], c, key)
    ensures |cache.bufs| == NBUF && OneEach(cache.bufs) && OnDisk(cache.disk, key)
  {
    hide OnDisk;
    hide Coherent;
    Parts(cache.devices, cache.bufs, cache.chains, cache.lru, cache.disk, cache.edited);
    KeyFacts(cache.devices, cache.bufs, cache.chains, cache.lru, cache.disk, cache.edited, key);
    var found := cache.Lookup(key);
    i := found.value;
    UsedBuffer(cache.bufs, c, i);
    assert HasCounts(cache.bufs[i], c, key);
  }

  /** A client changes the data of a buffer it uses. */
  method ChangeBlock(cache: Cache, key: Key, data: seq<Byte>, ghost c: Clients)
    requires cache.Valid() && StandsFor(cache.bufs, cache.disk, cache.edited, c)
    requires Allowed(c, |cache.devices|, Change(key, data))
    modifies cache
    ensures cache.Valid() && StandsFor(cache.bufs, cache.disk, cache.edited, After(c, Change(key, data)))
    ensures Stay(old(cache.bufs), cache.bufs)
  {
    hide OnDisk;
    hide BlockOf;
    hide Coherent;
    hide Logical;
    hide Counted;
    hide Used;
    var i := UsedAt(cache, key, c);
    ghost var b0, c' := cache.bufs, After(c, Change(key, data));
    cache.Edit(i, data);
    EditedStore(b0, cache.bufs, cache.disk, key, data);
    OneCounts(b0, cache.bufs, c, c', i, key);
  }

  /** bwrite. */
  method PutBlock(cache: Cache, key: Key, sync: bool, ghost c: Clients)
    requires cache.Valid() && StandsFor(cache.bufs, cache.disk, cache.edited, c) && key in Used(c)
    modifies cache
    ensures cache.Valid() && StandsFor(cache.bufs, cache.disk, cache.edited, After(c, Put(key, sync)))
    ensures Stay(old(cache.bufs), cache.bufs)
    ensures sync ==> OnDisk(cache.disk, key) && key in c.store && BlockOf(cache.disk, key) == c.store[key]
  {
    hide OnDisk;
    hide BlockOf;
    hide SameBlocks;
    hide Coherent;
    hide Logical;
    hide Counted;
    hide Used;
    var i := UsedAt(cache, key, c);
    ghost var b0, d0, c' := cache.bufs, cache.disk, After(c, Put(key, sync));
    HeldData(cache.devices, b0, cache.chains, cache.lru, d0, cache.edited, i, key);
    var ok := cache.Bwrite(i, sync);
    SameStore(b0, d0, cache.bufs, cache.disk);
    OneCounts(b0, cache.bufs, c, c', i, key);
    assert forall j :: 0 <= j < NBUF && j != i && b0[j].key.Some? ==> b0[j].key.value != key;
  }

  /** Letting go of a buffer that was not changed, or that others use, loses nothing. */
  lemma CountsLoseNothing(bufs: seq<Buf>, bufs': seq<Buf>, edited: set<nat>, c: Clients, i: nat, key: Key)
    requires NothingLost(bufs, edited) && Noted(bufs, edited, c) && Holds(bufs, i, key)
    requires |bufs'| == |bufs|
             && bufs' == bufs[i := bufs[i].(refcnt := bufs'[i].refcnt, pins := bufs'[i].pins)]
    requires key in c.changed ==> InUse(bufs'[i])
    ensures NothingLost(bufs', edited) && Noted(bufs', edited, c)
  {
  }

  lemma NotedSame(bufs: seq<Buf>, edited: set<nat>, c: Clients, c': Clients)
    requires Noted(bufs, edited, c) && c'.changed == c.changed
    ensures Noted(bufs, edited, c')
  {
  }

  /** brelse, bpin and bunpin. */
  method CountBlock(cache: Cache, call: Call, ghost c: Clients)
    requires cache.Valid() && StandsFor(cache.bufs, cache.disk, cache.edited, c)
    requires (call.Release? || call.Pin? || call.Unpin?) && Allowed(c, |cache.devices|, call)
    modifies cache
    ensures cache.Valid() && StandsFor(cache.bufs, cache.disk, cache.edited, After(c, call))
    ensures Stay(old(cache.bufs), cache.bufs) && cache.disk == old(cache.disk)
  {
    hide OnDisk;
    hide BlockOf;
    hide SameBlocks;
    hide Coherent;
    hide Logical;
    hide Counted;
    hide Victim;
    hide Used;
    hide NothingLost;
    hide Noted;
    hide Store;
    UsedCounts(c, call.key);
    var i := UsedAt(cache, call.key, c);
    ghost var b0, d0, c' := cache.bufs, cache.disk, After(c, call);
    if call.Release? {
      cache.Brelse(i);
    } else if call.Pin? {
      cache.Bpin(i);
    } else {
      cache.Bunpin(i);
    }
    SameStore(b0, d0, cache.bufs, cache.disk);
    OneCounts(b0, cache.bufs, c, c', i, call.key);
    CountsLoseNothing(b0, cache.bufs, cache.edited, c, i, call.key);
    NotedSame(cache.bufs, cache.edited, c, c');
  }

  /** bsync and bcache_invalidate. */
  method WholeCache(cache: Cache, call: Call, ghost c: Clients)
    requires cache.Valid() && StandsFor(cache.bufs, cache.disk, cache.edited, c)
    requires (call.Sync? || call.Forget?) && Allowed(c, |cache.devices|, call)
    modifies cache
    ensures cache.Valid() && StandsFor(cache.bufs, cache.disk, cache.edited, c)
    ensures Stay(old(cache.bufs), cache.bufs)
  {
    hide OnDisk;
    hide BlockOf;
    hide SameBlocks;
    hide Coherent;
    hide Logical;
    hide Counted;
    hide Used;
    ghost var b0, d0 := cache.bufs, cache.disk;
    Parts(cache.devices, b0, cache.chains, cache.lru, d0, cache.edited);
    if call.Sync? {
      cache.Bsync(call.target);
      CleanedCounts(b0, cache.bufs, c);
    } else {
      cache.Invalidate(call.dev);
      DroppedCounts(b0, cache.bufs, c);
    }
    SameStore(b0, d0, cache.bufs, cache.disk);
  }

  method Step(cache: Cache, call: Call, ghost c: Clients) returns (data: Option<seq<Byte>>)
    requires cache.Valid() && StandsFor(cache.bufs, cache.disk, cache.edited, c) && Allowed(c, |cache.devices|, call)
    modifies cache
    ensures cache.Valid() && StandsFor(cache.bufs, cache.disk, cache.edited, After(c, call))
    ensures data == Answer(c, call) && Stay(old(cache.bufs), cache.bufs)
  {
    hide Coherent;
    hide StandsFor;
    hide Stay;
    hide Used;
    data := None;
    match call {
      case Get(key) => data := GetBlock(cache, key, c);
      case Change(key, d) => ChangeBlock(cache, key, d, c);
      case Put(key, sync) => PutBlock(cache, key, sync, c);
      case Release(_) => CountBlock(cache, call, c);
      case Pin(_) => CountBlock(cache, call, c);
      case Unpin(_) => CountBlock(cache, call, c);
      case Sync(_) => WholeCache(cache, call, c);
      case Forget(_) => WholeCache(cache, call, c);
    }
  }

  /** A buffer stays with its block as long as the block is in use. */
  ghost predicate InPlace(bufs: seq<Buf>, bufs': seq<Buf>, c: Clients, calls: seq<Call>) {
    forall i, key :: Holds(bufs, i, key) && UsedThroughout(c, calls, key) ==> Holds(bufs', i, key)
  }

  lemma InPlaceMore(b0: seq<Buf>, b1: seq<Buf>, b2: seq<Buf>, c: Clients, calls: seq<Call>, n: nat)
    requires n < |calls| && InPlace(b0, b1, c, calls[..n]) && Stay(b1, b2)
    requires Counted(b1, AfterAll(c, calls[..n]))
    ensures InPlace(b0, b2, c, calls[..n + 1])
  {
    hide AfterAll;
    hide Used;
    hide InUse;
    var before, now := calls[..n], calls[..n + 1];
    forall i, key | Holds(b0, i, key) && UsedThroughout(c, now, key)
      ensures Holds(b2, i, key)
    {
      forall m | 0 <= m <= |before|
        ensures key in Used(AfterAll(c, before[..m]))
      {
        assert before[..m] == now[..m];
      }
      assert Holds(b1, i, key);
      assert now[..n] == before;
      UsedBuffer(b1, AfterAll(c, before), i);
    }
  }

  lemma AnswersMore(c: Clients, calls: seq<Call>, n: nat)
    requires n < |calls|
    ensures AfterAll(c, calls[..n + 1]) == After(AfterAll(c, calls[..n]), calls[n])
    ensures Answers(c, calls[..n + 1]) == Answers(c, calls[..n]) + [Answer(AfterAll(c, calls[..n]), calls[n])]
  {
    assert calls[..n + 1][..n] == calls[..n];
  }

  /** Any run of calls in which clients keep the discipline answers as the plain array does: bread gives the block, or
      nothing exactly if 256 other blocks are in use. Afterwards the cache stands for what the plain array holds, and a
      buffer stays with its block as long as the block is in use. */
  method Run(cache: Cache, calls: seq<Call>, ghost c: Clients) returns (answers: seq<Option<seq<Byte>>>)
    requires cache.Valid() && StandsFor(cache.bufs, cache.disk, cache.edited, c)
    requires AllAllowed(c, |cache.devices|, calls)
    modifies cache
    ensures cache.Valid() && StandsFor(cache.bufs, cache.disk, cache.edited, AfterAll(c, calls))
    ensures answers == Answers(c, calls)
    ensures InPlace(old(cache.bufs), cache.bufs, c, calls)
  {
    hide Coherent;
    hide StandsFor;
    hide Stay;
    hide InPlace;
    hide Used;
    hide AfterAll;
    hide Answers;
    hide Allowed;
    answers := [];
    ghost var b0 := cache.bufs;
    RunStart(b0, c, calls);
    for n := 0 to |calls|
      invariant cache.Valid() && StandsFor(cache.bufs, cache.disk, cache.edited, AfterAll(c, calls[..n]))
      invariant answers == Answers(c, calls[..n]) && InPlace(b0, cache.bufs, c, calls[..n])
    {
      ghost var b1, c1 := cache.bufs, AfterAll(c, calls[..n]);
      CountedOf(b1, cache.disk, cache.edited, c1);
      var data := Step(cache, calls[n], c1);
      AnswersMore(c, calls, n);
      InPlaceMore(b0, b1, cache.bufs, c, calls, n);
      answers := answers + [data];
    }
    assert calls[..|calls|] == calls;
  }

  lemma RunStart(bufs: seq<Buf>, c: Clients, calls: seq<Call>)
    ensures AfterAll(c, calls[..0]) == c && Answers(c, calls[..0]) == [] && InPlace(bufs, bufs, c, calls[..0])
  {
  }

  lemma CountedOf(bufs: seq<Buf>, disk: seq<seq<Byte>>, edited: set<nat>, c: Clients)
    requires StandsFor(bufs, disk, edited, c)
    ensures Counted(bufs, c)
  {
  }

  /** A buffer shows what the clients see of its block. */
  lemma BufferShows(bufs: seq<Buf>, disk: seq<seq<Byte>>, edited: set<nat>, c: Clients, i: nat, key: Key)
    requires StandsFor(bufs, disk, edited, c) && OneEach(bufs) && Holds(bufs, i, key) && OnDisk(disk, key)
    ensures key in c.store && bufs[i].data == c.store[key]
  {
    hide OnDisk;
    hide BlockOf;
    LogicalCached(bufs, disk, key, i);
    assert key in Store(bufs, disk);
  }

  // ---------------------------------------------------------------- every cache stands for something

  /** The references to each block, or the pins. */
  ghost function Tally(bufs: seq<Buf>, pins: bool): multiset<Key> {
    if bufs == [] then multiset{}
    else
      var rest, b := Tally(bufs[..|bufs| - 1], pins), bufs[|bufs| - 1];
      if b.key.Some? then rest[b.key.value := if pins then b.pins else b.refcnt] else rest
  }

  lemma {:induction false} TallyAt(bufs: seq<Buf>, pins: bool, key: Key)
    requires OneEach(bufs)
    ensures forall i :: Holds(bufs, i, key) ==> Tally(bufs, pins)[key] == if pins then bufs[i].pins else bufs[i].refcnt
    ensures !Cached(bufs, key) ==> Tally(bufs, pins)[key] == 0
  {
    if bufs != [] {
      var n := |bufs| - 1;
      var rest := bufs[..n];
      assert forall i :: 0 <= i < n ==> rest[i] == bufs[i];
      TallyAt(rest, pins, key);
      if Holds(bufs, n, key) {
        assert forall i :: Holds(bufs, i, key) ==> i == n;
      } else {
        assert Tally(bufs, pins)[key] == Tally(rest, pins)[key];
        assert forall i :: Holds(bufs, i, key) <==> Holds(rest, i, key);
      }
    }
  }

  /** What the clients of a cache see. */
  ghost function ClientsOf(bufs: seq<Buf>, disk: seq<seq<Byte>>, edited: set<nat>): Clients {
    Clients(Store(bufs, disk), Tally(bufs, false), Tally(bufs, true),
            set i | i in edited && i < |bufs| && bufs[i].key.Some? :: bufs[i].key.value)
  }

  /** A cache in any state, with buffers held, pinned and changed, can start a run. */
  lemma AnyCacheStands(bufs: seq<Buf>, disk: seq<seq<Byte>>, edited: set<nat>)
    requires OneEach(bufs) && NothingLost(bufs, edited)
    ensures StandsFor(bufs, disk, edited, ClientsOf(bufs, disk, edited))
  {
    hide Store;
    hide InUse;
    var c := ClientsOf(bufs, disk, edited);
    forall k
      ensures k in Used(c) ==> Cached(bufs, k)
    {
      TallyAt(bufs, false, k);
      TallyAt(bufs, true, k);
      UsedCounts(c, k);
      assert c.refs[k] + c.pins[k] > 0 ==> Cached(bufs, k);
    }
    forall i | 0 <= i < |bufs| && bufs[i].key.Some?
      ensures HasCounts(bufs[i], c, bufs[i].key.value)
    {
      assert Holds(bufs, i, bufs[i].key.value);
      TallyAt(bufs, false, bufs[i].key.value);
      TallyAt(bufs, true, bufs[i].key.value);
    }
  }

  // ---------------------------------------------------------------- brackets

  /** bread, use the data, brelse. */
  method ReadBlock(cache: Cache, key: Key, ghost c: Clients) returns (data: Option<seq<Byte>>)
    requires cache.Valid() && StandsFor(cache.bufs, cache.disk, cache.edited, c)
    requires key in c.store && (key in c.changed ==> key in Used(c))
    modifies cache
    ensures cache.Valid() && StandsFor(cache.bufs, cache.disk, cache.edited, c)
    ensures data == if Served(c, key) then Some(c.store[key]) else None
  {
    hide Coherent;
    hide StandsFor;
    hide Stay;
    hide Used;
    data := Step(cache, Get(key), c);
    if data.Some? {
      ghost var c1 := After(c, Get(key));
      UsedCounts(c, key);
      var none := Step(cache, Release(key), c1);
      assert After(c1, Release(key)) == c;
    }
  }

  /** bread, change the data, bwrite, brelse. */
  method WriteBlock(cache: Cache, key: Key, data: seq<Byte>, sync: bool, ghost c: Clients) returns (ok: bool)
    requires cache.Valid() && StandsFor(cache.bufs, cache.disk, cache.edited, c) && key in c.store && |data| == BSIZE
    modifies cache
    ensures cache.Valid() && ok == Served(c, key)
    ensures StandsFor(cache.bufs, cache.disk, cache.edited,
                      if ok then c.(store := c.store[key := data], changed := c.changed - {key}) else c)
    ensures ok && sync ==> OnDisk(cache.disk, key) && BlockOf(cache.disk, key) == data
  {
    hide Coherent;
    hide StandsFor;
    hide Stay;
    hide Used;
    hide OnDisk;
    hide BlockOf;
    var got := Step(cache, Get(key), c);
    ok := got.Some?;
    if ok {
      ghost var c1 := After(c, Get(key));
      UsedCounts(c1, key);
      var none := Step(cache, Change(key, data), c1);
      ghost var c2 := After(c1, Change(key, data));
      UsedCounts(c2, key);
      PutBlock(cache, key, sync, c2);
      ghost var c3 := After(c2, Put(key, sync));
      CountBlock(cache, Release(key), c3);
      assert After(c3, Release(key)) == c.(store := c.store[key := data], changed := c.changed - {key});
    }
  }
}
