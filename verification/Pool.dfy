/** pool.hpp: an address-ordered pool.  It keeps a list of the blocks it got from the
    system, a free list through their free chunks, and hands out runs of chunks. */
module Pool {
  import opened Common
  import opened Storage
  import opened PoolSpec
  import opened PoolRelease

  /** `alloc_size`: the requested size rounded up to whole words. */
  function AllocSize(requested: nat): (p: nat)
    ensures p >= WORD && p >= requested && p % WORD == 0
    ensures if requested <= WORD then p == WORD else p < requested + WORD
  {
    var s := if requested < WORD then WORD else requested;
    var rem := s % WORD;
    if rem != 0 then s + WORD - rem else s
  }

  /** The number of chunks for n objects: as few as hold them. */
  function NumChunks(n: nat, requested: nat): (num: nat)
    requires requested > 0
    ensures n * requested <= num * AllocSize(requested)
    ensures if n == 0 then num == 0 else num * AllocSize(requested) < n * requested + AllocSize(requested)
  {
    var p, total := AllocSize(requested), n * requested;
    WholeChunks(total, p);
    total / p + (if total % p != 0 then 1 else 0)
  }

  lemma WholeChunks(total: nat, p: nat)
    requires p > 0
    ensures var num := total / p + (if total % p != 0 then 1 else 0);
      total <= num * p < total + p && (total == 0 ==> num == 0)
  {
    var q := total / p;
    assert total == q * p + total % p;
    assert (q + 1) * p == q * p + p;
  }

  lemma NumPositive(n: nat, requested: nat)
    requires requested > 0
    ensures NumChunks(n, requested) > 0 <==> n > 0
  {
    if n > 0 { MulLess(0, n, requested); }
  }

  /** The doubling rule, capped if a maximum is set. */
  function GrowSize(next: nat, max: nat, requested: nat): (r: nat)
    requires requested > 0 && next > 0
    ensures next <= r <= 2 * next
    ensures max > 0 && r > next ==> r * AllocSize(requested) <= max * requested
    ensures max == 0 ==> r == 2 * next
    ensures max > 0 && next * AllocSize(requested) / requested >= max ==> r == next
    ensures max > 0 && next * AllocSize(requested) / requested < max && r < 2 * next ==>
      (r + 1) * AllocSize(requested) > max * requested
  {
    var p := AllocSize(requested);
    if max == 0 then next * 2
    else if next * p / requested < max then
      CapIsEnough(next * p, requested, max, next, p);
      CapHolds(max * requested, p, if next * 2 < max * requested / p then next * 2 else max * requested / p);
      if next * 2 < max * requested / p then next * 2 else max * requested / p
    else next
  }

  lemma CapIsEnough(x: nat, requested: nat, max: nat, next: nat, p: nat)
    requires requested > 0 && p > 0 && x == next * p && x / requested < max
    ensures max * requested / p >= next
  {
    var q := x / requested;
    assert x == q * requested + x % requested;
    MulLess(q, max, requested);
    var y := max * requested;
    var d := y / p;
    assert y == d * p + y % p;
    MulLess(d, next, p);
  }

  lemma CapHolds(y: nat, p: nat, r: nat)
    requires p > 0 && r <= y / p
    ensures r * p <= y && (r == y / p ==> (r + 1) * p > y)
  {
    var d := y / p;
    assert y == d * p + y % p;
    assert (d + 1) * p == d * p + p;
    var e := d - r;
    assert d * p == r * p + e * p;
  }

  class Pool {
    const store: Store
    const requestedSize: nat
    var nextSize: nat
    var startSize: nat
    var maxSize: nat
    var listPtr: int           // the member `list`: address and size of the first block
    var listSize: int
    ghost var blocks: seq<Block>
    ghost var owner: map<int, int>
    ghost var live: map<int, nat>

    ghost predicate ListOk()
      reads this, store
    {
      && Apart(blocks, store.p) && HeadersOk(store.mem, blocks, store.p)
      && listPtr == (if blocks == [] then 0 else blocks[0].begin)
      && (blocks != [] ==> listSize == PodSize(blocks[0].n, store.p))
    }

    ghost predicate Valid()
      reads this, store
    {
      && requestedSize > 0 && store.p == AllocSize(requestedSize) && nextSize > 0 && startSize > 0
      && store.Valid() && ListOk()
      && Partition(Chunks(blocks, store.p), store.free, owner)
      && Owned(owner, live, store.p)
    }

    constructor (requested: nat, next: nat, max: nat)
      requires requested > 0 && next > 0
      ensures Valid() && live == map[] && blocks == [] && fresh(store)
      ensures requestedSize == requested && nextSize == startSize == next && maxSize == max
    {
      store := new Store(AllocSize(requested));
      requestedSize, nextSize, startSize, maxSize := requested, next, next, max;
      listPtr, listSize, blocks, owner, live := 0, 0, [], map[], map[];
    }

    /** `PODptr::next(arg)` for the block at `ptr` of `size` bytes. */
    method SetNext(ptr: int, size: int, nextPtr: int, nextSz: int)
      modifies store`mem
      ensures store.mem == WithHeader(old(store.mem), ptr + size - HEADER, nextPtr, nextSz)
    {
      store.mem := store.mem[ptr + size - WORD - WORD := nextPtr];
      store.mem := store.mem[ptr + size - WORD := nextSz];
    }

    /** The place of a new block in the block list. */
    method FindBlockPlace(begin: int) returns (prevPtr: int, prevSize: nat, ghost k: nat)
      requires ListOk()
      ensures k <= |blocks| && (k == 0 <==> prevPtr == 0)
      ensures k > 0 ==> prevPtr == blocks[k - 1].begin && prevSize == PodSize(blocks[k - 1].n, store.p)
      ensures k > 0 ==> blocks[k - 1].begin <= begin
      ensures k < |blocks| ==> blocks[k].begin > begin
    {
      if listPtr == 0 || listPtr > begin { return 0, 0, 0; }
      prevPtr, prevSize, k := listPtr, listSize, 1;
      assert HeaderAt(store.mem, blocks, 0, store.p);
      var nextPtr := store.mem[prevPtr + prevSize - WORD - WORD];
      while nextPtr != 0 && nextPtr <= begin
        invariant 1 <= k <= |blocks| && prevPtr == blocks[k - 1].begin <= begin
        invariant prevSize == PodSize(blocks[k - 1].n, store.p)
        invariant nextPtr == if k < |blocks| then blocks[k].begin else 0
        decreases |blocks| - k
      {
        assert HeaderAt(store.mem, blocks, k - 1, store.p);
        prevPtr, prevSize := nextPtr, store.mem[prevPtr + prevSize - WORD];
        k := k + 1;
        assert HeaderAt(store.mem, blocks, k - 1, store.p);
        nextPtr := store.mem[prevPtr + prevSize - WORD - WORD];
      }
    }
  
    /** Links a new block into the block list, at its place. */
    method InsertBlock(begin: int, size: nat, ghost n: nat) returns (ghost k: nat)
      requires ListOk() && store.p > 0 && n > 0 && size == PodSize(n, store.p)
      requires FreshRegion(blocks, store.p, begin, size)
      modifies this`listPtr, this`listSize, this`blocks, store`mem
      ensures ListOk() && k <= |old(blocks)| && blocks == InsertAt(old(blocks), k, Block(begin, n))
      ensures SameBesidesHeaders(old(store.mem), store.mem, blocks, store.p)
    {
      var prevPtr, prevSize;
      prevPtr, prevSize, k := FindBlockPlace(begin);
      ghost var b := Block(begin, n);
      ghost var bs := InsertAt(blocks, k, b);
      InsertApart(blocks, k, b, store.p);
      ghost var e := End(b, store.p);
      assert begin + size - HEADER == e;
      if prevPtr == 0 {
        OnlyHeader(store.mem, bs, k, store.p, listPtr, listSize);
        SetNext(begin, size, listPtr, listSize);
        HeadersInsert(old(store.mem), store.mem, blocks, k, b, listSize, store.p);
        listPtr, listSize := begin, size;
      } else {
        InsertBehind(begin, size, prevPtr, prevSize, b, k);
      }
      blocks := bs;
    }

    /** `node.next(prev.next()); prev.next(node)`. */
    method InsertBehind(begin: int, size: nat, prevPtr: int, prevSize: nat, ghost b: Block, ghost k: nat)
      requires 0 < k <= |blocks| && HeadersOk(store.mem, blocks, store.p) && store.p > 0
      requires Apart(InsertAt(blocks, k, b), store.p) && b.begin == begin && size == PodSize(b.n, store.p)
      requires prevPtr == blocks[k - 1].begin && prevSize == PodSize(blocks[k - 1].n, store.p)
      modifies store`mem
      ensures HeadersOk(store.mem, InsertAt(blocks, k, b), store.p)
      ensures SameBesidesHeaders(old(store.mem), store.mem, InsertAt(blocks, k, b), store.p)
    {
      ghost var bs := InsertAt(blocks, k, b);
      assert begin + size - HEADER == End(b, store.p);
      assert prevPtr + prevSize - HEADER == End(blocks[k - 1], store.p);
      assert HeaderAt(store.mem, blocks, k - 1, store.p);
      var nextPtr, nextSz := store.mem[prevPtr + prevSize - WORD - WORD], store.mem[prevPtr + prevSize - WORD];
      OnlyHeader(store.mem, bs, k, store.p, nextPtr, nextSz);
      SetNext(begin, size, nextPtr, nextSz);
      OnlyHeader(store.mem, bs, k - 1, store.p, begin, size);
      SetNext(prevPtr, prevSize, begin, size);
      HeadersInsert(old(store.mem), store.mem, blocks, k, b, nextSz, store.p);
    }

    /** Operations on the free list leave the block list alone. */
    twostate lemma ListFrame(cells: seq<int>)
      requires old(ListOk()) && store.p > 0
      requires SameOutside(old(store.mem), store.mem, cells)
      requires forall c | c in cells :: NoHeader(blocks, store.p, c)
      requires blocks == old(blocks) && listPtr == old(listPtr) && listSize == old(listSize)
      ensures ListOk()
    {
      HeadersFrame(old(store.mem), store.mem, blocks, store.p, cells);
    }

    lemma CellsNotHeaders()
      requires Valid()
      ensures forall c | c in store.Cells() :: NoHeader(blocks, store.p, c)
    {
      forall c | c in store.Cells() ensures NoHeader(blocks, store.p, c) {
        if c != FIRST { assert c in store.free; }
        ChunkNotHeader(blocks, store.p, c);
      }
    }

    /** `store().malloc()`: the first free chunk becomes a live allocation. */
    method TakeFirst() returns (ret: int)
      requires Valid() && store.free != []
      modifies this`owner, this`live, store`mem, store`free
      ensures Valid() && ret == old(store.free)[0] && store.free == old(store.free)[1..]
      ensures ret !in old(live) && live == old(live)[ret := 1]
    {
      CellsNotHeaders();
      ChunksSpaced(blocks, store.p);
      PartitionTake(Chunks(blocks, store.p), store.free, owner, store.p, 0, 1, store.free[0]);
      ghost var r := store.free[0..1];
      assert r == Run(store.free[0], 1, store.p);
      OwnedGrow(owner, live, store.p, store.free[0], 1);
      assert store.free[..0] + store.free[1..] == store.free[1..];
      ret := store.Malloc();
      ListFrame(old(store.Cells()));
      owner, live := Assign(owner, r, ret), live[ret := 1];
    }

    /** `malloc_n` on the free list. */
    method TakeRun(n: nat) returns (ret: int)
      requires Valid()
      modifies this`owner, this`live, store`mem, store`free
      ensures Valid()
      ensures ret == 0 ==> live == old(live) && owner == old(owner) && store.free == old(store.free)
      ensures n > 0 ==> (ret == 0 <==> forall a :: !Fits(old(store.free), store.p, n, a))
      ensures ret != 0 ==> n > 0 && ret !in old(live) && live == old(live)[ret := n]
      ensures ret != 0 ==> Fits(old(store.free), store.p, n, ret)
      ensures ret != 0 ==> forall a | Fits(old(store.free), store.p, n, a) :: ret <= a
    {
      CellsNotHeaders();
      ghost var s;
      ret, s := store.MallocN(n);
      ListFrame(old(store.Cells()));
      if ret != 0 {
        ghost var r := old(store.free)[s..s + n];
        PartitionTake(Chunks(blocks, store.p), old(store.free), owner, store.p, s, n, ret);
        OwnedGrow(owner, live, store.p, ret, n);
        owner, live := Assign(owner, r, ret), live[ret := n];
      }
    }

    /** The shared end of the resizing paths: the chunks behind the first `num` go to the
        free list, the block goes to the block list. */
    method AddBlock(begin: int, size: nat, num: nat, n: nat)
      requires Valid() && 0 < n && num <= n && size == PodSize(n, store.p)
      requires FreshRegion(blocks, store.p, begin, size)
      modifies this, store`mem, store`free
      ensures Valid() && maxSize == old(maxSize) && startSize == old(startSize)
      ensures nextSize == GrowSize(old(nextSize), maxSize, requestedSize)
      ensures GrewBy(old(blocks), blocks, Block(begin, n))
      ensures live == Give(old(live), begin, num) && (num > 0 ==> begin !in old(live))
      ensures old(store.free) == [] ==> store.free == Run(begin + num * store.p, n - num, store.p)
    {
      ghost var k := PlaceBlock(begin, size, num, n);
      OwnedGrow(owner, live, store.p, begin, num);
      owner, live := Assign(owner, Run(begin, num, store.p), begin), Give(live, begin, num);
    }

    method PlaceBlock(begin: int, size: nat, num: nat, n: nat) returns (ghost k: nat)
      requires Valid() && 0 < n && num <= n && size == PodSize(n, store.p)
      requires FreshRegion(blocks, store.p, begin, size)
      modifies this`nextSize, this`listPtr, this`listSize, this`blocks, store`mem, store`free
      ensures store.Valid() && ListOk() && nextSize == GrowSize(old(nextSize), maxSize, requestedSize)
      ensures k <= |old(blocks)| && blocks == InsertAt(old(blocks), k, Block(begin, n))
      ensures Partition(Chunks(blocks, store.p), store.free, Assign(owner, Run(begin, num, store.p), begin))
      ensures forall c | c in Run(begin, num, store.p) :: c !in owner
      ensures old(store.free) == [] ==> store.free == Run(begin + num * store.p, n - num, store.p)
    {
      hide Chain, Spaced, Run, Chunks;
      ghost var j := AddRest(begin, size, num, n);
      nextSize := GrowSize(nextSize, maxSize, requestedSize);
      ghost var before := store.mem;
      k := InsertBlock(begin, size, n);
      PartitionGrowBlock(old(blocks), store.p, k, begin, num, n, old(store.free), store.free, owner, j);
      ChainBesidesHeaders(before, store.mem, blocks, store.p, store.free);
    }

    method AddRest(begin: int, size: nat, num: nat, n: nat) returns (ghost j: nat)
      requires Valid() && 0 < n && num <= n && size == PodSize(n, store.p)
      requires FreshRegion(blocks, store.p, begin, size)
      modifies store`mem, store`free
      ensures store.Valid() && ListOk() && j <= |old(store.free)|
      ensures store.free == old(store.free)[..j] + Run(begin + num * store.p, n - num, store.p) + old(store.free)[j..]
    {
      j := 0;
      if n > num {
        ghost var cells := store.Cells() + Run(begin + num * store.p, n - num, store.p);
        CellsNotHeaders();
        RestNotHeaders(blocks, store.p, begin, num, n);
        RestOfBlock(blocks, store.p, begin, num, n, store.free, owner);
        j := store.AddOrderedBlock(begin + num * store.p, size - HEADER - num * store.p);
        ListFrame(cells);
      }
    }

    /** `ordered_malloc()`: the lowest free chunk, or one of a new block.  `got1` and `got2`
        are what the system answers to a first and a second, smaller request. */
    method OrderedMalloc(got1: int, got2: int) returns (ret: int)
      requires Valid()
      requires got1 != 0 ==> FreshRegion(blocks, store.p, got1, PodSize(nextSize, store.p))
      requires got2 != 0 ==> FreshRegion(blocks, store.p, got2, PodSize(nextSize / 2, store.p))
      modifies this, store`mem, store`free
      ensures Valid() && maxSize == old(maxSize) && startSize == old(startSize)
      ensures ret == 0 <==> old(store.free) == [] && got1 == 0 && (old(nextSize) <= 4 || got2 == 0)
      ensures ret == 0 ==> live == old(live) && blocks == old(blocks) && store.free == []
      ensures ret == 0 ==> nextSize == if old(nextSize) > 4 then old(nextSize) / 2 else old(nextSize)
      ensures ret != 0 ==> ret !in old(live) && live == old(live)[ret := 1]
      ensures old(store.free) != [] ==> ret == old(store.free)[0] && blocks == old(blocks) && nextSize == old(nextSize)
      ensures old(store.free) == [] && ret != 0 ==>
        && ret == (if got1 != 0 then got1 else got2)
        && GrewBy(old(blocks), blocks, Block(ret, if got1 != 0 then old(nextSize) else old(nextSize) / 2))
        && nextSize == GrowSize(if got1 != 0 then old(nextSize) else old(nextSize) / 2, maxSize, requestedSize)
    {
      store.WordAt(0);
      if store.mem[FIRST] != 0 {
        ret := TakeFirst();
      } else {
        ret := OrderedMallocNeedResize(got1, got2);
      }
    }

    method OrderedMallocNeedResize(got1: int, got2: int) returns (ret: int)
      requires Valid() && store.free == []
      requires got1 != 0 ==> FreshRegion(blocks, store.p, got1, PodSize(nextSize, store.p))
      requires got2 != 0 ==> FreshRegion(blocks, store.p, got2, PodSize(nextSize / 2, store.p))
      modifies this, store`mem, store`free
      ensures Valid() && maxSize == old(maxSize) && startSize == old(startSize)
      ensures ret == 0 <==> got1 == 0 && (old(nextSize) <= 4 || got2 == 0)
      ensures ret == 0 ==> live == old(live) && blocks == old(blocks) && store.free == []
      ensures ret == 0 ==> nextSize == if old(nextSize) > 4 then old(nextSize) / 2 else old(nextSize)
      ensures ret != 0 ==> ret !in old(live) && live == old(live)[ret := 1]
      ensures ret != 0 ==>
        && ret == (if got1 != 0 then got1 else got2)
        && GrewBy(old(blocks), blocks, Block(ret, if got1 != 0 then old(nextSize) else old(nextSize) / 2))
        && nextSize == GrowSize(if got1 != 0 then old(nextSize) else old(nextSize) / 2, maxSize, requestedSize)
    {
      hide Pool.Valid, FreshRegion, GrewBy, Run;
      NextSizePositive();
      var ptr := got1;
      if ptr == 0 {
        if nextSize > 4 {
          SetNextSize(nextSize / 2);
          ptr := got2;
        }
        if ptr == 0 { return 0; }
      }
      HeadInRun(ptr, nextSize, store.p);
      RunFromStart(ptr, nextSize);
      AddBlock(ptr, PodSize(nextSize, store.p), 0, nextSize);
      ret := TakeFirst();
    }

    lemma RunFromStart(a: int, n: nat)
      ensures Run(a + 0 * store.p, n - 0, store.p) == Run(a, n, store.p)
    {
    }

    lemma NextSizePositive()
      requires Valid()
      ensures nextSize > 0 && store.p > 0 && requestedSize > 0
    {
    }

    method SetNextSize(n: nat)
      requires Valid() && n > 0
      modifies `nextSize
      ensures Valid() && nextSize == n
    {
      nextSize := n;
    }

    /** `ordered_malloc(n)`: the lowest run that is long enough, or the head of a new block. */
    method OrderedMallocN(n: nat, got1: int, got2: int) returns (ret: int)
      requires Valid()
      requires var num := NumChunks(n, requestedSize);
        && (got1 != 0 ==> FreshRegion(blocks, store.p, got1, PodSize(Max(nextSize, num), store.p)))
        && (got2 != 0 ==> FreshRegion(blocks, store.p, got2, PodSize(Max(Max(nextSize, num) / 2, num), store.p)))
      modifies this, store`mem, store`free
      ensures Valid() && maxSize == old(maxSize) && startSize == old(startSize)
      ensures n == 0 ==> ret == 0
      ensures n > 0 ==> (ret == 0 <==>
        && (forall a :: !Fits(old(store.free), store.p, NumChunks(n, requestedSize), a))
        && got1 == 0 && (old(nextSize) <= NumChunks(n, requestedSize) || got2 == 0))
      ensures ret == 0 ==> live == old(live) && blocks == old(blocks) && store.free == old(store.free)
      ensures n == 0 ==> nextSize == old(nextSize)
      ensures n > 0 && ret == 0 ==>
        var num := NumChunks(n, requestedSize);
        nextSize == if old(nextSize) > num then Max(old(nextSize) / 2, num) else num
      ensures ret != 0 ==> ret !in old(live) && live == old(live)[ret := NumChunks(n, requestedSize)]
      ensures ret != 0 ==> n * requestedSize <= live[ret] * store.p < n * requestedSize + store.p
      ensures ret != 0 && (forall a :: !Fits(old(store.free), store.p, NumChunks(n, requestedSize), a)) ==>
        var num := NumChunks(n, requestedSize);
        var size := Max(old(nextSize), num);
        && ret == (if got1 != 0 then got1 else got2)
        && GrewBy(old(blocks), blocks, Block(ret, if got1 != 0 then size else Max(size / 2, num)))
        && nextSize == GrowSize(if got1 != 0 then size else Max(size / 2, num), maxSize, requestedSize)
      ensures n > 0 && (exists a :: Fits(old(store.free), store.p, NumChunks(n, requestedSize), a)) ==>
        && ret != 0 && blocks == old(blocks) && nextSize == old(nextSize)
        && forall a | Fits(old(store.free), store.p, NumChunks(n, requestedSize), a) :: ret <= a
    {
      hide Pool.Valid, FreshRegion, GrewBy, Run, NumChunks, Fits;
      NextSizePositive();
      NumPositive(n, requestedSize);
      var num := NumChunks(n, requestedSize);
      ret := TakeRun(num);
      if ret != 0 || n == 0 { return; }
      SetNextSize(Max(nextSize, num));
      var ptr := got1;
      if ptr == 0 {
        if num < nextSize {
          SetNextSize(nextSize / 2);
          SetNextSize(Max(nextSize, num));
          ptr := got2;
        }
        if ptr == 0 { return 0; }
      }
      AddBlock(ptr, PodSize(nextSize, store.p), num, nextSize);
      ret := ptr;
    }

    lemma OwnedNotHeaders(a: int)
      requires Valid() && a in live
      ensures forall c | c in Run(a, live[a], store.p) :: c in owner && NoHeader(blocks, store.p, c)
    {
      forall c | c in Run(a, live[a], store.p) ensures c in owner && NoHeader(blocks, store.p, c) {
        assert Owns(owner, Run(a, live[a], store.p), a);
        ChunkNotHeader(blocks, store.p, c);
      }
    }

    /** In every valid pool no two live allocations overlap, byte for byte. */
    lemma AllocationsApart(a: int, b: int)
      requires Valid() && a in live && b in live && a != b
      ensures a + live[a] * store.p <= b || b + live[b] * store.p <= a
    {
      hide Owned, Partition;
      ChunksSpaced(blocks, store.p);
      if a < b {
        LiveApart(Chunks(blocks, store.p), store.free, owner, live, store.p, a, b);
      } else {
        LiveApart(Chunks(blocks, store.p), store.free, owner, live, store.p, b, a);
      }
    }

    /** In every valid pool each live allocation lies within the chunks of one block that is held, and
        shares no chunk with the free list. */
    lemma AllocationInBlock(a: int) returns (i: nat)
      requires Valid() && a in live
      ensures i < |blocks| && blocks[i].begin <= a && a + live[a] * store.p <= End(blocks[i], store.p)
      ensures forall c | c in Run(a, live[a], store.p) :: c !in store.free
    {
      hide Chunks, Run;
      LiveRun(owner, live, store.p, a);
      forall c | c in Run(a, live[a], store.p) ensures c in owner && c in Chunks(blocks, store.p) && c !in store.free {
        OwnedHere(a, c);
      }
      i := RunInOneBlock(blocks, store.p, a, live[a]);
    }

    lemma OwnedHere(a: int, c: int)
      requires Valid() && a in live && c in Run(a, live[a], store.p)
      ensures c in owner && c in Chunks(blocks, store.p) && c !in store.free
    {
      hide Chunks, Run;
      assert Owns(owner, Run(a, live[a], store.p), a);
    }

    /** `ordered_free(chunk)`. */
    method OrderedFree(chunk: int)
      requires Valid() && chunk in live && live[chunk] == 1
      modifies this`owner, this`live, store`mem, store`free
      ensures Valid() && live == old(live) - {chunk}
      ensures forall c :: c in store.free <==> c in old(store.free) || c == chunk
    {
      ghost var r := Run(chunk, 1, store.p);
      assert r == [chunk];
      GivePrepare(chunk);
      ghost var cells := store.Cells() + [chunk];
      ghost var k := store.OrderedFree(chunk);
      ListFrame(cells);
      GiveBack(chunk, k, old(store.free));
    }

    /** `ordered_free(chunks, n)` of what `ordered_malloc(n)` returned. */
    method OrderedFreeN(chunks: int, n: nat)
      requires Valid()
      requires n > 0 ==> chunks in live && live[chunks] == NumChunks(n, requestedSize)
      modifies this`owner, this`live, store`mem, store`free
      ensures Valid() && live == if n > 0 then old(live) - {chunks} else old(live)
      ensures n > 0 ==> forall c :: c in store.free <==>
        c in old(store.free) || c in Run(chunks, NumChunks(n, requestedSize), store.p)
    {
      NumPositive(n, requestedSize);
      var num := NumChunks(n, requestedSize);
      if num != 0 { GiveRun(chunks, num); }
    }

    /** `ordered_free_n` on the free list. */
    method GiveRun(chunks: int, num: nat)
      requires Valid() && num > 0 && chunks in live && live[chunks] == num
      modifies this`owner, this`live, store`mem, store`free
      ensures Valid() && live == old(live) - {chunks}
      ensures forall c :: c in store.free <==> c in old(store.free) || c in Run(chunks, num, store.p)
    {
      hide Clear, Chain, Spaced, HeaderAt, NoHeader, Partition, Apart, Run;
      GivePrepare(chunks);
      ghost var cells := store.Cells() + Run(chunks, num, store.p);
      ExactChunks(num, store.p);
      MulLess(0, num, store.p);
      ghost var k := store.AddOrderedBlock(chunks, num * store.p);
      ListFrame(cells);
      GiveBack(chunks, k, old(store.free));
    }

    /** The holder of a live chunk may write anything anywhere in it: between the calls
        of a run the pool relies on nothing there. */
    method ClientWrite(c: int, a: int, word: int)
      requires Valid() && c in owner && c <= a < c + store.p
      modifies store`mem
      ensures Valid()
    {
      OwnedBytes(blocks, store.free, owner, store.p, c, a);
      assert SameOutside(store.mem, store.mem[a := word], [a]) by { assert a in [a]; }
      forall j | 0 <= j < |store.Cells()| ensures store.Cells()[j] !in [a] {
        var x := store.Cells()[j];
        if j > 0 { assert x == store.free[j - 1] && x in store.free; }
      }
      ChainFrame(store.mem, store.mem[a := word], store.Cells(), 0, [a]);
      HeadersFrame(store.mem, store.mem[a := word], blocks, store.p, [a]);
      store.mem := store.mem[a := word];
    }

    lemma GivePrepare(a: int)
      requires Valid() && a in live
      ensures var r := Run(a, live[a], store.p);
        0 < a && Clear(store.free, r, store.p) && forall c | c in store.Cells() + r :: NoHeader(blocks, store.p, c)
    {
      CellsNotHeaders();
      OwnedNotHeaders(a);
      ChunksSpaced(blocks, store.p);
      OwnedRunIsClear(Chunks(blocks, store.p), store.free, owner, store.p, a, live[a]);
    }

    /** The chunks of `a` have joined the free list at place k. */
    ghost method GiveBack(a: int, k: nat, free: seq<int>)
      requires requestedSize > 0 && store.p == AllocSize(requestedSize) && nextSize > 0 && startSize > 0
      requires store.Valid() && ListOk() && Partition(Chunks(blocks, store.p), free, owner) && Owned(owner, live, store.p)
      requires a in live && k <= |free| && store.free == free[..k] + Run(a, live[a], store.p) + free[k..]
      modifies this`owner, this`live
      ensures Valid() && live == old(live) - {a}
      ensures forall c :: c in store.free <==> c in free || c in Run(a, old(live)[a], store.p)
    {
      var r := Run(a, live[a], store.p);
      assert Owns(owner, r, a);
      PartitionGive(Chunks(blocks, store.p), free, owner, k, r);
      OwnedGive(owner, live, store.p, a);
      assert free == free[..k] + free[k..];
      owner, live := Release(owner, r), live - {a};
    }

    // ------------------------------------------------------------- release_memory

    ghost function FreeAt(k: nat): int
      reads store
    {
      if k < |store.free| then store.free[k] else 0
    }

    /** The inner loop: are the chunks of the block the next free chunks? */
    method CheckBlock(begin: int, end: int, freeP: int, ghost n: nat, ghost k: nat)
      returns (allFree: bool, freeP': int)
      requires store.Valid() && n > 0 && 0 < begin && end == begin + n * store.p
      requires k <= |store.free| && freeP == FreeAt(k)
      ensures allFree <==> k + n <= |store.free| && store.free[k..k + n] == Run(begin, n, store.p)
      ensures freeP' == if allFree then FreeAt(k + n) else freeP
    {
      ghost var r := Run(begin, n, store.p);
      freeP' := freeP;
      var i := begin;
      ghost var m := 0;
      while i != end
        invariant m <= n && i == begin + m * store.p
        invariant k + m <= |store.free| && store.free[k..k + m] == r[..m] && freeP' == FreeAt(k + m)
        decreases n - m
      {
        if m >= n { assert false; }
        RunAt(begin, n, store.p, m);
        MulLess(0, m, store.p);
        if i != freeP' {
          if k + n <= |store.free| { assert store.free[k..k + n][m] == store.free[k + m]; }
          return false, freeP;
        }
        store.WordAt(k + m + 1);
        SliceSnoc(store.free, k, m);
        SliceSnoc(r, 0, m);
        freeP' := store.mem[freeP'];
        i := i + store.p;
        m := m + 1;
        assert (m - 1) * store.p + store.p == m * store.p;
      }
      if m < n { MulLess(m, n, store.p); }
      assert r[..n] == r;
      allFree := true;
    }

    /** The walk over the free chunks of a block that stays. */
    method SkipBlock(begin: int, end: int, freeP: int, prevFreeP: int, ghost k: nat)
      returns (freeP': int, prevFreeP': int, ghost k': nat)
      requires store.Valid() && Before(store.free, k, begin) && begin <= end
      requires freeP == FreeAt(k) != 0 && prevFreeP == if k == 0 then 0 else store.free[k - 1]
      ensures Before(store.free, k', end) && k <= k'
      ensures freeP' == FreeAt(k') && prevFreeP' == if k' == 0 then 0 else store.free[k' - 1]
    {
      freeP', prevFreeP', k' := freeP, prevFreeP, k;
      if begin <= freeP < end {
        while true
          invariant k <= k' < |store.free| && freeP' == store.free[k'] < end
          invariant forall i | 0 <= i < k' :: store.free[i] < end
          decreases |store.free| - k'
        {
          store.WordAt(k' + 1);
          prevFreeP' := freeP';
          freeP' := store.mem[freeP'];
          k' := k' + 1;
          if freeP' == 0 || freeP' >= end { break; }
        }
      }
    }

    method UnlinkBlock(nextPtr: int, nextSz: int, prevPtr: int, prevSize: int, ghost kb: nat)
      requires Valid() && kb < |blocks| && nextPtr == NextPtr(blocks, kb + 1)
      requires kb + 1 < |blocks| ==> nextSz == PodSize(blocks[kb + 1].n, store.p)
      requires if kb == 0 then prevPtr == 0
               else prevPtr == blocks[kb - 1].begin && prevSize == PodSize(blocks[kb - 1].n, store.p)
      modifies this`blocks, this`listPtr, this`listSize, store`mem
      ensures store.Valid() && ListOk() && blocks == RemoveAt(old(blocks), kb)
    {
      if prevPtr != 0 {
        SetNext(prevPtr, prevSize, nextPtr, nextSz);
        assert End(blocks[kb - 1], store.p) == prevPtr + prevSize - HEADER;
      } else {
        listPtr, listSize := nextPtr, nextSz;
      }
      UnlinkedOk(old(store.mem), store.mem, kb, nextSz);
      blocks := RemoveAt(blocks, kb);
    }

    lemma UnlinkedOk(m: map<int, int>, m': map<int, int>, kb: nat, nextSz: int)
      requires kb < |blocks| && HeadersOk(m, blocks, store.p) && Apart(blocks, store.p) && store.p > 0
      requires Chain(m, store.Cells(), 0) && Partition(Chunks(blocks, store.p), store.free, owner)
      requires kb + 1 < |blocks| ==> nextSz == PodSize(blocks[kb + 1].n, store.p)
      requires m' == if kb == 0 then m
                     else WithHeader(m, End(blocks[kb - 1], store.p), NextPtr(blocks, kb + 1), nextSz)
      ensures Chain(m', store.Cells(), 0)
      ensures HeadersOk(m', RemoveAt(blocks, kb), store.p) && Apart(RemoveAt(blocks, kb), store.p)
    {
      RemoveApart(blocks, kb, store.p);
      HeadersRemove(m, m', blocks, kb, nextSz, store.p);
      if kb > 0 { OnlyHeader(m, blocks, kb - 1, store.p, NextPtr(blocks, kb + 1), nextSz); }
      ChainBesidesHeaders(m, m', blocks, store.p, store.free);
    }

    method UnlinkChunks(prevFreeP: int, freeP: int, ghost k: nat, ghost n: nat)
      requires store.Valid() && k + n <= |store.free|
      requires freeP == FreeAt(k + n) && prevFreeP == if k == 0 then 0 else store.free[k - 1]
      modifies store`mem, store`free
      ensures store.Valid() && store.free == old(store.free)[..k] + old(store.free)[k + n..]
      ensures SameOutside(old(store.mem), store.mem, old(store.Cells()))
    {
      ghost var cell := store.Cells()[k];
      assert cell == if k == 0 then FIRST else store.free[k - 1];
      assert freeP == Head(store.free[k + n..]);
      Storage.TakeRun(store.mem, store.free, store.p, k, n);
      if prevFreeP != 0 {
        store.mem := store.mem[prevFreeP := freeP];
      } else {
        store.mem := store.mem[FIRST := freeP];
      }
      assert store.mem == old(store.mem)[cell := freeP];
      store.free := store.free[..k] + store.free[k + n..];
    }

    /** A wholly free block leaves the block list and the free list, and its memory goes
        back to the system: whatever reads it afterwards does not verify. */
    method ReleaseBlock(ptr: int, size: nat, nextPtr: int, nextSz: int, prevPtr: int, prevSize: int,
                        freeP: int, prevFreeP: int, ghost kb: nat, ghost k: nat)
      requires Valid() && kb < |blocks| && ptr == blocks[kb].begin && size == PodSize(blocks[kb].n, store.p)
      requires k + blocks[kb].n <= |store.free|
      requires store.free[k..k + blocks[kb].n] == Run(ptr, blocks[kb].n, store.p)
      requires nextPtr == NextPtr(blocks, kb + 1)
      requires kb + 1 < |blocks| ==> nextSz == PodSize(blocks[kb + 1].n, store.p)
      requires if kb == 0 then prevPtr == 0
               else prevPtr == blocks[kb - 1].begin && prevSize == PodSize(blocks[kb - 1].n, store.p)
      requires freeP == FreeAt(k + blocks[kb].n) && prevFreeP == if k == 0 then 0 else store.free[k - 1]
      modifies this`blocks, this`listPtr, this`listSize, store`mem, store`free
      ensures Valid() && blocks == RemoveAt(old(blocks), kb)
      ensures store.free == old(store.free)[..k] + old(store.free)[k + old(blocks)[kb].n..]
    {
      ghost var b := blocks[kb];
      PartitionRemove(blocks, kb, store.p, store.free, owner, k);
      RemovedIsFresh(blocks, kb, store.p);
      CellsNotHeaders();
      UnlinkBlock(nextPtr, nextSz, prevPtr, prevSize, kb);
      label L:
      UnlinkChunks(prevFreeP, freeP, k, b.n);
      StillNotHeaders(old(blocks), kb, store.p, old(store.Cells()));
      ListFrame@L(old(store.Cells()));
      HeadersWithout(store.mem, blocks, b, store.p);
      ChainWithout(store.mem, blocks, b, store.p, store.free);
      store.mem := Without(store.mem, ptr, size);
    }

    /** What the walk needs to know about the block before it. */
    method LookAtBlock(ptr: int, ptrSize: int, freeP: int, ghost kb: nat, ghost k: nat)
      returns (allFree: bool, freeP': int, nextPtr: int, nextSz: int)
      requires Valid() && kb < |blocks| && ptr == blocks[kb].begin && ptrSize == PodSize(blocks[kb].n, store.p)
      requires k <= |store.free| && freeP == FreeAt(k) && Before(store.free, k, ptr)
      ensures allFree <==> AllFree(blocks[kb], store.free, store.p)
      ensures allFree ==>
        k + blocks[kb].n <= |store.free| && store.free[k..k + blocks[kb].n] == Run(ptr, blocks[kb].n, store.p)
      ensures freeP' == if allFree then FreeAt(k + blocks[kb].n) else freeP
      ensures nextPtr == NextPtr(blocks, kb + 1)
      ensures kb + 1 < |blocks| ==> nextSz == PodSize(blocks[kb + 1].n, store.p)
    {
      ghost var b := blocks[kb];
      var end := ptr + ptrSize - HEADER;
      assert end == End(b, store.p) && HeaderAt(store.mem, blocks, kb, store.p);
      nextPtr, nextSz := store.mem[end], store.mem[end + WORD];
      allFree, freeP' := CheckBlock(ptr, end, freeP, b.n, k);
      if allFree {
        NextMeansAllFree(store.free, store.p, k, b);
      } else if AllFree(b, store.free, store.p) {
        AllFreeMeansNext(store.free, store.p, k, b);
      }
    }

    /** The cursors of the walk stand at the kb-th block and the k-th free chunk. */
    ghost predicate At(w: Cursor, kb: nat, k: nat)
      reads this, store
    {
      && kb <= |blocks| && k <= |store.free|
      && w.ptr == NextPtr(blocks, kb) && (kb < |blocks| ==> w.size == PodSize(blocks[kb].n, store.p))
      && (if kb == 0 then w.prevPtr == 0
          else w.prevPtr == blocks[kb - 1].begin && w.prevSize == PodSize(blocks[kb - 1].n, store.p))
      && w.freeP == FreeAt(k) && w.prevFreeP == if k == 0 then 0 else store.free[k - 1]
    }

    method KeepBlock(w: Cursor, nextPtr: int, nextSz: int, ghost kb: nat, ghost k: nat)
      returns (w': Cursor, ghost k': nat)
      requires Valid() && At(w, kb, k) && kb < |blocks| && w.freeP != 0 && Before(store.free, k, blocks[kb].begin)
      requires nextPtr == NextPtr(blocks, kb + 1) && (kb + 1 < |blocks| ==> nextSz == PodSize(blocks[kb + 1].n, store.p))
      ensures At(w', kb + 1, k') && Before(store.free, k', End(blocks[kb], store.p))
    {
      MulLess(0, blocks[kb].n, store.p);
      assert w.ptr + w.size - HEADER == End(blocks[kb], store.p);
      var freeP, prevFreeP;
      freeP, prevFreeP, k' := SkipBlock(w.ptr, w.ptr + w.size - HEADER, w.freeP, w.prevFreeP, k);
      w' := Cursor(nextPtr, nextSz, w.ptr, w.size, freeP, prevFreeP);
    }

    method DropBlock(w: Cursor, freeP: int, nextPtr: int, nextSz: int, ghost kb: nat, ghost k: nat)
      returns (w': Cursor)
      requires Valid() && At(w, kb, k) && kb < |blocks| && k + blocks[kb].n <= |store.free|
      requires store.free[k..k + blocks[kb].n] == Run(blocks[kb].begin, blocks[kb].n, store.p)
      requires freeP == FreeAt(k + blocks[kb].n)
      requires nextPtr == NextPtr(blocks, kb + 1) && (kb + 1 < |blocks| ==> nextSz == PodSize(blocks[kb + 1].n, store.p))
      modifies this`blocks, this`listPtr, this`listSize, store`mem, store`free
      ensures Valid() && At(w', kb, k) && blocks == RemoveAt(old(blocks), kb)
      ensures store.free == old(store.free)[..k] + old(store.free)[k + old(blocks)[kb].n..]
    {
      ghost var n := blocks[kb].n;
      ReleaseBlock(w.ptr, w.size, nextPtr, nextSz, w.prevPtr, w.prevSize, freeP, w.prevFreeP, kb, k);
      assert NextPtr(blocks, kb) == NextPtr(old(blocks), kb + 1);
      assert FreeAt(k) == if k + n < |old(store.free)| then old(store.free)[k + n] else 0;
      w' := Cursor(nextPtr, nextSz, w.prevPtr, w.prevSize, freeP, w.prevFreeP);
    }

    method WalkOverKept(w: Cursor, nextPtr: int, nextSz: int, ghost all: seq<Block>, ghost free: seq<int>,
                        ghost kb: nat, ghost k: nat, ghost released: seq<Block>)
      returns (w': Cursor, ghost k': nat)
      requires Valid() && At(w, kb, k) && kb < |blocks| && w.freeP != 0
      requires Walk(blocks, store.free, store.p, all, free, kb, k, released) && !AllFree(blocks[kb], store.free, store.p)
      requires nextPtr == NextPtr(blocks, kb + 1) && (kb + 1 < |blocks| ==> nextSz == PodSize(blocks[kb + 1].n, store.p))
      ensures At(w', kb + 1, k') && Walk(blocks, store.free, store.p, all, free, kb + 1, k', released)
    {
      w', k' := KeepBlock(w, nextPtr, nextSz, kb, k);
      WalkKeep(blocks, store.free, store.p, owner, all, free, kb, k, k', released);
    }

    method WalkOverReleased(w: Cursor, freeP: int, nextPtr: int, nextSz: int, ghost all: seq<Block>, ghost free: seq<int>,
                            ghost kb: nat, ghost k: nat, ghost released: seq<Block>)
      returns (w': Cursor, ghost released': seq<Block>)
      requires Valid() && At(w, kb, k) && kb < |blocks| && k + blocks[kb].n <= |store.free|
      requires Walk(blocks, store.free, store.p, all, free, kb, k, released) && AllFree(blocks[kb], store.free, store.p)
      requires store.free[k..k + blocks[kb].n] == Run(blocks[kb].begin, blocks[kb].n, store.p)
      requires freeP == FreeAt(k + blocks[kb].n)
      requires nextPtr == NextPtr(blocks, kb + 1) && (kb + 1 < |blocks| ==> nextSz == PodSize(blocks[kb + 1].n, store.p))
      modifies this`blocks, this`listPtr, this`listSize, store`mem, store`free
      ensures Valid() && At(w', kb, k) && |blocks| == |old(blocks)| - 1 && released' != []
      ensures Walk(blocks, store.free, store.p, all, free, kb, k, released')
    {
      w' := DropBlock(w, freeP, nextPtr, nextSz, kb, k);
      WalkRelease(old(blocks), old(store.free), store.p, all, free, kb, k, released, blocks, store.free);
      released' := released + [old(blocks)[kb]];
    }

    /** One turn of the outer loop. */
    method WalkOver(w: Cursor, ghost all: seq<Block>, ghost free: seq<int>, ghost kb: nat, ghost k: nat,
                    ghost released: seq<Block>)
      returns (w': Cursor, gone: bool, ghost kb': nat, ghost k': nat, ghost released': seq<Block>)
      requires Valid() && At(w, kb, k) && w.ptr != 0 && w.freeP != 0
      requires Walk(blocks, store.free, store.p, all, free, kb, k, released)
      modifies this`blocks, this`listPtr, this`listSize, store`mem, store`free
      ensures Valid() && At(w', kb', k') && Walk(blocks, store.free, store.p, all, free, kb', k', released')
      ensures kb < |old(blocks)| && kb' <= |blocks| && |blocks| - kb' == |old(blocks)| - kb - 1
      ensures if gone then released' != [] else released' == released
    {
      var allFree, freeP, nextPtr, nextSz := LookAtBlock(w.ptr, w.size, w.freeP, kb, k);
      gone, kb', k', released' := allFree, kb, k, released;
      if !allFree {
        w', k' := WalkOverKept(w, nextPtr, nextSz, all, free, kb, k, released);
        kb' := kb + 1;
      } else {
        w', released' := WalkOverReleased(w, freeP, nextPtr, nextSz, all, free, kb, k, released);
      }
    }

    /** The outer loop of `release_memory`. */
    method WalkBlocks(ghost all: seq<Block>, ghost free: seq<int>)
      returns (ret: bool, ghost kb: nat, ghost k: nat, ghost released: seq<Block>)
      requires Valid() && all == blocks && free == store.free
      modifies this`blocks, this`listPtr, this`listSize, store`mem, store`free
      ensures Valid() && Walk(blocks, store.free, store.p, all, free, kb, k, released)
      ensures kb == |blocks| || k == |store.free|
      ensures ret <==> released != []
    {
      store.WordAt(0);
      ret, released, kb, k := false, [], 0, 0;
      var w := Cursor(listPtr, listSize, 0, 0, store.mem[FIRST], 0);
      StartWalk(blocks, store.free, store.p, owner);
      while w.ptr != 0
        invariant Valid() && At(w, kb, k)
        invariant Walk(blocks, store.free, store.p, all, free, kb, k, released)
        invariant ret <==> released != []
        decreases |blocks| - kb
      {
        if w.freeP == 0 { return; }
        var gone;
        w, gone, kb, k, released := WalkOver(w, all, free, kb, k, released);
        ret := ret || gone;
      }
    }

    /** `release_memory` frees exactly the blocks all of whose chunks are free, with exactly
        their chunks; what stays keeps its order, and the live allocations are untouched. */
    method ReleaseMemory() returns (ret: bool, ghost released: seq<Block>)
      requires Valid()
      modifies this`blocks, this`listPtr, this`listSize, this`nextSize, store`mem, store`free
      ensures Valid() && nextSize == startSize
      ensures blocks == Kept(old(blocks), old(store.free), store.p)
      ensures released == Released(old(blocks), old(store.free), store.p) && (ret <==> released != [])
      ensures forall c :: c in store.free <==> c in old(store.free) && c !in Chunks(released, store.p)
      ensures OnlyFreeGo(blocks, released, old(blocks), old(store.free), store.p)
    {
      hide OnlyFreeGo;
      ghost var kb, k;
      KeptAndReleased(blocks, store.free, store.p);
      ret, kb, k, released := WalkBlocks(blocks, store.free);
      WalkDone(blocks, store.free, store.p, old(blocks), old(store.free), kb, k, released);
      nextSize := startSize;
    }
  }

  /** The paired iterators of `release_memory`. */
  datatype Cursor = Cursor(ptr: int, size: int, prevPtr: int, prevSize: int, freeP: int, prevFreeP: int)
}
