/** Runs of a slab cache: a client that takes and gives back objects in any order. */
module SlabRuns {
  import opened Options
  import opened Arithmetic
  import opened Slabs

  /** Take an object, with memory on offer for a new slab or without; or give back the k-th object held. The heap only
      has memory to offer that is page-aligned and apart from all slabs. */
  datatype Op = Take(offer: Option<nat>) | Give(k: nat)

  /** The objects held are exactly the live ones, each once. */
  ghost predicate Holds(cache: SlabCache, held: seq<nat>)
    reads cache
  {
    cache.Valid() && NoDuplicates(held) && forall a: nat :: cache.Live(a) <==> a in held
  }

  /** The objects do not overlap, lie inside slabs and are aligned if the alignment divides a page. */
  ghost predicate Safe(cache: SlabCache, held: seq<nat>)
    reads cache
  {
    && (forall i, j :: 0 <= i < |held| && 0 <= j < |held| && i != j ==>
          held[i] + cache.objSize <= held[j] || held[j] + cache.objSize <= held[i])
    && (forall i :: 0 <= i < |held| ==> InSomeSlab(cache, held[i]))
    && (cache.align > 0 && PAGE_SIZE % cache.align == 0 ==> forall i :: 0 <= i < |held| ==> held[i] % cache.align == 0)
  }

  ghost predicate InSomeSlab(cache: SlabCache, a: nat)
    reads cache
  {
    exists m: nat :: m in cache.slabs && m <= a && a + cache.objSize <= m + SLAB_SIZE
  }

  lemma HeldSafe(cache: SlabCache, held: seq<nat>)
    requires Holds(cache, held) && cache.align > 0
    ensures Safe(cache, held)
  {
    hide IsLive;
    hide IsObject;
    hide CacheOk;
    var slabs, partial, full, empty := cache.slabs, cache.partial, cache.full, cache.empty;
    forall i, j | 0 <= i < |held| && 0 <= j < |held| && i != j
      ensures held[i] + cache.objSize <= held[j] || held[j] + cache.objSize <= held[i]
    {
      assert held[i] in held && held[j] in held && cache.Live(held[i]) && cache.Live(held[j]);
      DistinctAt(held, i, j);
      LiveApart(slabs, partial, full, empty, cache.stride, cache.total, held[i], held[j]);
    }
    forall i | 0 <= i < |held|
      ensures InSomeSlab(cache, held[i])
      ensures PAGE_SIZE % cache.align == 0 ==> held[i] % cache.align == 0
    {
      assert held[i] in held && cache.Live(held[i]);
      LiveInside(slabs, partial, full, empty, cache.stride, cache.total, held[i]);
      if PAGE_SIZE % cache.align == 0 {
        LiveAligned(slabs, partial, full, empty, cache.objSize, cache.align, cache.stride, cache.total, held[i]);
      }
    }
  }

  lemma DistinctAt(s: seq<nat>, i: nat, j: nat)
    requires NoDuplicates(s) && i < |s| && j < |s| && i != j
    ensures s[i] != s[j]
  {
  }

  lemma AppendDistinct(s: seq<nat>, x: nat)
    requires NoDuplicates(s) && x !in s
    ensures NoDuplicates(s + [x]) && forall y :: y in s + [x] <==> y in s || y == x
  {
  }

  /** Whatever is taken and given back, and in whatever order, the objects held are the live ones, apart from each
      other, inside slabs and aligned. */
  method Run(cache: SlabCache, ops: seq<Op>) returns (held: seq<nat>)
    requires cache.Valid() && forall a: nat :: !cache.Live(a)
    modifies cache
    ensures Holds(cache, held) && Safe(cache, held)
  {
    hide IsLive;
    hide IsObject;
    hide CacheOk;
    hide FullIsFull;
    held := [];
    for i := 0 to |ops|
      invariant Holds(cache, held)
    {
      match ops[i] {
        case Take(offer) =>
          var obj := cache.Alloc(if offer.Some? && cache.NewRegion(offer.value) then offer else None);
          if obj != 0 {
            AppendDistinct(held, obj);
            held := held + [obj];
          }
        case Give(k) =>
          if k < |held| {
            var obj := held[k];
            assert obj in held;
            cache.Free(obj);
            UnlinkKeeps(held, k);
            held := Unlink(held, k);
          }
      }
    }
    HeldSafe(cache, held);
  }
}
