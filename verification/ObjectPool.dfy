/** object_pool.hpp: objects one chunk each; the destructor finds those still live. */
module ObjectPool {
  import opened Common
  import opened Storage
  import opened PoolSpec
  import opened PoolRelease
  import opened Pool

  /** Every live allocation is a single chunk. */
  ghost predicate Singles(live: map<int, nat>) {
    forall a | a in live :: live[a] == 1
  }

  /** The chunks that are not free, in address order. */
  ghost function Minus(chunks: seq<int>, free: seq<int>): seq<int> {
    if chunks == [] then []
    else (if chunks[0] in free then [] else [chunks[0]]) + Minus(chunks[1..], free)
  }

  lemma {:induction false} MinusAppend(a: seq<int>, b: seq<int>, free: seq<int>)
    ensures Minus(a + b, free) == Minus(a, free) + Minus(b, free)
  {
    if a == [] {
      assert a + b == b;
    } else {
      assert (a + b)[1..] == a[1..] + b;
      MinusAppend(a[1..], b, free);
    }
  }

  lemma {:induction false} MinusMembers(chunks: seq<int>, free: seq<int>, c: int)
    ensures c in Minus(chunks, free) <==> c in chunks && c !in free
  {
    if chunks != [] { MinusMembers(chunks[1..], free, c); }
  }

  lemma {:induction false} MinusSpaced(chunks: seq<int>, free: seq<int>, p: nat)
    requires Spaced(chunks, p)
    ensures Spaced(Minus(chunks, free), p)
  {
    if chunks != [] {
      var rest := Minus(chunks[1..], free);
      MinusSpaced(chunks[1..], free, p);
      forall j | 0 <= j < |rest| ensures chunks[0] + p <= rest[j] {
        MinusBehind(chunks, free, p, rest[j]);
      }
      InFront(chunks[0], rest, p);
    }
  }

  lemma MinusBehind(chunks: seq<int>, free: seq<int>, p: nat, c: int)
    requires chunks != [] && Spaced(chunks, p) && c in Minus(chunks[1..], free)
    ensures chunks[0] + p <= c
  {
    MinusMembers(chunks[1..], free, c);
    var t :| 0 <= t < |chunks[1..]| && chunks[1..][t] == c;
    assert c == chunks[t + 1];
  }

  lemma InFront(c: int, rest: seq<int>, p: nat)
    requires 0 < c && Spaced(rest, p) && forall j | 0 <= j < |rest| :: c + p <= rest[j]
    ensures Spaced([c] + rest, p)
  {
    var s := [c] + rest;
    forall i, j | 0 <= i < j < |s| ensures s[i] + p <= s[j] {
      assert s[j] == rest[j - 1] && (i > 0 ==> s[i] == rest[i - 1]);
    }
  }

  lemma MinusStep(blocks: seq<Block>, bi: nat, p: nat, free: seq<int>)
    requires bi < |blocks|
    ensures Minus(Chunks(blocks[..bi + 1], p), free) ==
      Minus(Chunks(blocks[..bi], p), free) + Minus(Run(blocks[bi].begin, blocks[bi].n, p), free)
  {
    var b := blocks[bi];
    var r := Run(b.begin, b.n, p);
    assert Chunks(blocks[..bi + 1], p) == Chunks(blocks[..bi], p) + r by {
      assert blocks[..bi + 1] == blocks[..bi] + [b];
      ChunksAppend(blocks[..bi], [b], p);
      assert [b][1..] == [] && Chunks([b], p) == r + [];
    }
    MinusAppend(Chunks(blocks[..bi], p), r, free);
  }

  lemma NothingMinus(chunks: seq<int>, free: seq<int>)
    requires chunks == []
    ensures Minus(chunks, free) == []
  {
  }

  /** With single chunks only, the chunks that are not free are the live objects, once each. */
  lemma DestroyedAreLive(pool: Pool)
    requires pool.Valid() && Singles(pool.live)
    ensures var d := Minus(Chunks(pool.blocks, pool.store.p), pool.store.free);
      (forall c :: c in d <==> c in pool.live) && NoDup(d)
  {
    var p := pool.store.p;
    var chunks := Chunks(pool.blocks, p);
    var d := Minus(chunks, pool.store.free);
    ChunksSpaced(pool.blocks, p);
    MinusSpaced(chunks, pool.store.free, p);
    forall c ensures c in d <==> c in pool.live {
      MinusMembers(chunks, pool.store.free, c);
      if c in pool.live {
        HeadInRun(c, 1, p);
        assert Owns(pool.owner, Run(c, 1, p), c);
      }
      if c in pool.owner {
        assert Run(pool.owner[c], 1, p) == [pool.owner[c]];
      }
    }
  }

  class Objects {
    const pool: Pool

    ghost predicate Valid()
      reads pool, pool.store
    {
      pool.Valid() && Singles(pool.live)
    }

    constructor (size: nat, next: nat, max: nat)
      requires size > 0 && next > 0
      ensures Valid() && pool.live == map[]
    {
      pool := new Pool(size, next, max);
    }

    method Malloc(got1: int, got2: int) returns (ret: int)
      requires Valid()
      requires got1 != 0 ==> FreshRegion(pool.blocks, pool.store.p, got1, PodSize(pool.nextSize, pool.store.p))
      requires got2 != 0 ==> FreshRegion(pool.blocks, pool.store.p, got2, PodSize(pool.nextSize / 2, pool.store.p))
      modifies pool, pool.store`mem, pool.store`free
      ensures Valid() && (ret == 0 ==> pool.live == old(pool.live))
      ensures ret == 0 <==> old(pool.store.free) == [] && got1 == 0 && (old(pool.nextSize) <= 4 || got2 == 0)
      ensures old(pool.store.free) != [] ==> ret == old(pool.store.free)[0]
      ensures ret != 0 ==> ret !in old(pool.live) && pool.live == old(pool.live)[ret := 1]
    {
      ret := pool.OrderedMalloc(got1, got2);
    }

    method Free(chunk: int)
      requires Valid() && chunk in pool.live
      modifies pool`owner, pool`live, pool.store`mem, pool.store`free
      ensures Valid() && pool.live == old(pool.live) - {chunk}
    {
      pool.OrderedFree(chunk);
    }

    /** What the walk reads at the block bi and behind it is still as it was. */
    ghost predicate Intact(m: map<int, int>, bi: nat)
      reads this, pool, pool.store
    {
      bi < |pool.blocks| ==>
        forall c | c in m && pool.blocks[bi].begin <= c :: c in pool.store.mem && pool.store.mem[c] == m[c]
    }

    method NextBlock(iter: int, iterSize: int, ghost m: map<int, int>, ghost bi: nat) returns (nextPtr: int, nextSz: int)
      requires bi < |pool.blocks| && iter == pool.blocks[bi].begin && pool.store.p > 0
      requires iterSize == PodSize(pool.blocks[bi].n, pool.store.p)
      requires HeadersOk(m, pool.blocks, pool.store.p) && Intact(m, bi)
      ensures nextPtr == NextPtr(pool.blocks, bi + 1)
      ensures bi + 1 < |pool.blocks| ==> nextSz == PodSize(pool.blocks[bi + 1].n, pool.store.p)
    {
      assert HeaderAt(m, pool.blocks, bi, pool.store.p);
      MulLess(0, pool.blocks[bi].n, pool.store.p);
      nextPtr, nextSz := pool.store.mem[iter + iterSize - HEADER], pool.store.mem[iter + iterSize - WORD];
    }

    /** A chunk of the block that is not the next free one is not free at all. */
    lemma NotNextNotFree(bi: nat, c: int, k: nat)
      requires pool.store.p > 0 && Apart(pool.blocks, pool.store.p) && bi < |pool.blocks|
      requires Spaced(pool.store.free, pool.store.p)
      requires Partition(Chunks(pool.blocks, pool.store.p), pool.store.free, pool.owner)
      requires c in Run(pool.blocks[bi].begin, pool.blocks[bi].n, pool.store.p) && Before(pool.store.free, k, c)
      ensures c in pool.store.free <==> k < |pool.store.free| && pool.store.free[k] == c
      ensures Before(pool.store.free, if c in pool.store.free then k + 1 else k, c + pool.store.p)
    {
      var p, free, chunks := pool.store.p, pool.store.free, Chunks(pool.blocks, pool.store.p);
      ChunksSpaced(pool.blocks, p);
      BlockChunks(pool.blocks, bi, p, c);
      var s :| 0 <= s < |chunks| && chunks[s] == c;
      if k < |free| {
        var f := free[k];
        assert f in free;
        var t :| 0 <= t < |chunks| && chunks[t] == f;
        assert f > c ==> f >= c + p;
      }
    }

    /** The chunk j of the block: whether it is free, and what it adds to the chunks that are not. */
    lemma OneChunk(bi: nat, j: nat, i: int, k: nat)
      requires pool.store.p > 0 && Apart(pool.blocks, pool.store.p) && bi < |pool.blocks| && j < pool.blocks[bi].n
      requires Spaced(pool.store.free, pool.store.p)
      requires Partition(Chunks(pool.blocks, pool.store.p), pool.store.free, pool.owner)
      requires i == pool.blocks[bi].begin + j * pool.store.p && Before(pool.store.free, k, i)
      ensures i + pool.store.p == pool.blocks[bi].begin + (j + 1) * pool.store.p && i != 0
      ensures i in pool.store.free <==> k < |pool.store.free| && pool.store.free[k] == i
      ensures Before(pool.store.free, if i in pool.store.free then k + 1 else k, i + pool.store.p)
      ensures var r := Run(pool.blocks[bi].begin, pool.blocks[bi].n, pool.store.p);
        Minus(r[..j + 1], pool.store.free) == Minus(r[..j], pool.store.free) + if i in pool.store.free then [] else [i]
    {
      hide Apart, Partition, Spaced, Chunks, Before;
      var p, b := pool.store.p, pool.blocks[bi];
      var r := Run(b.begin, b.n, p);
      RunAt(b.begin, b.n, p, j);
      MulLess(0, j, p);
      assert r[j] in r && r[j] == i;
      NotNextNotFree(bi, i, k);
      ChunkPositive(bi, i);
      MinusAppend(r[..j], [i], pool.store.free);
      assert r[..j + 1] == r[..j] + [i] && [i][1..] == [];
      assert j * p + p == (j + 1) * p;
    }

    lemma ChunkPositive(bi: nat, i: int)
      requires pool.store.p > 0 && Apart(pool.blocks, pool.store.p) && bi < |pool.blocks|
      requires i in Run(pool.blocks[bi].begin, pool.blocks[bi].n, pool.store.p)
      ensures i != 0
    {
      ChunksSpaced(pool.blocks, pool.store.p);
      BlockChunks(pool.blocks, bi, pool.store.p, i);
    }

    /** The chunks of one block: the live ones are destroyed, the free ones stepped over. */
    method DestroyBlock(iter: int, end: int, freedIter: int, ghost m: map<int, int>, ghost bi: nat, ghost k: nat)
      returns (d: seq<int>, freedIter': int, ghost k': nat)
      requires pool.store.p > 0 && Apart(pool.blocks, pool.store.p) && bi < |pool.blocks| && Intact(m, bi)
      requires Spaced(pool.store.free, pool.store.p) && Chain(m, [FIRST] + pool.store.free, 0)
      requires Partition(Chunks(pool.blocks, pool.store.p), pool.store.free, pool.owner)
      requires iter == pool.blocks[bi].begin && end == End(pool.blocks[bi], pool.store.p)
      requires Before(pool.store.free, k, iter) && freedIter == pool.FreeAt(k)
      ensures d == Minus(Run(iter, pool.blocks[bi].n, pool.store.p), pool.store.free)
      ensures Before(pool.store.free, k', end) && freedIter' == pool.FreeAt(k')
    {
      hide Apart, Partition, Spaced, Chunks, Minus, Run;
      ghost var n := pool.blocks[bi].n;
      ghost var r := Run(iter, n, pool.store.p);
      d, freedIter', k' := [], freedIter, k;
      NothingMinus(r[..0], pool.store.free);
      var i := iter;
      ghost var j := 0;
      while i != end
        invariant j <= n && i == iter + j * pool.store.p
        invariant Before(pool.store.free, k', i) && freedIter' == pool.FreeAt(k')
        invariant d == Minus(r[..j], pool.store.free)
        decreases n - j
      {
        if j >= n { assert false; }
        OneChunk(bi, j, i, k');
        if i == freedIter' {
          ChainWord(m, pool.store.free, k' + 1);
          freedIter' := pool.store.mem[freedIter'];
          k' := k' + 1;
        } else {
          d := d + [i];
        }
        i := i + pool.store.p;
        j := j + 1;
      }
      if j < n { MulLess(j, n, pool.store.p); }
      assert r[..n] == r;
    }

    /** One turn of the walk: the header is read, the block's objects are destroyed, the block is freed. */
    method VisitBlock(iter: int, iterSize: int, freedIter: int, ghost m: map<int, int>, ghost bi: nat, ghost k: nat)
      returns (d: seq<int>, nextPtr: int, nextSz: int, freedIter': int, ghost k': nat)
      requires pool.store.p > 0 && Apart(pool.blocks, pool.store.p) && bi < |pool.blocks| && Intact(m, bi)
      requires Spaced(pool.store.free, pool.store.p) && Chain(m, [FIRST] + pool.store.free, 0)
      requires Partition(Chunks(pool.blocks, pool.store.p), pool.store.free, pool.owner)
      requires HeadersOk(m, pool.blocks, pool.store.p)
      requires iter == pool.blocks[bi].begin && iterSize == PodSize(pool.blocks[bi].n, pool.store.p)
      requires Before(pool.store.free, k, iter) && freedIter == pool.FreeAt(k)
      modifies pool.store`mem
      ensures d == Minus(Run(iter, pool.blocks[bi].n, pool.store.p), pool.store.free) && Intact(m, bi + 1)
      ensures nextPtr == NextPtr(pool.blocks, bi + 1)
      ensures bi + 1 < |pool.blocks| ==> nextSz == PodSize(pool.blocks[bi + 1].n, pool.store.p)
      ensures k' <= |pool.store.free| && freedIter' == pool.FreeAt(k')
      ensures bi + 1 < |pool.blocks| ==> Before(pool.store.free, k', nextPtr)
    {
      hide Minus, Chain, Spaced, HeaderAt;
      nextPtr, nextSz := NextBlock(iter, iterSize, m, bi);
      d, freedIter', k' := DestroyBlock(iter, iter + iterSize - HEADER, freedIter, m, bi, k);
      if bi + 1 < |pool.blocks| { BehindKept(pool.blocks, pool.store.free, pool.store.p, bi, k'); }
      pool.store.mem := Without(pool.store.mem, iter, iterSize);
    }

    /** The destructor: the lockstep walk over blocks and free list.  It lists the chunks
        whose element destructor it runs, and the blocks it frees. */
    method Destroy() returns (destroyed: seq<int>, freed: seq<int>)
      requires Valid()
      modifies pool`listPtr, pool.store`mem
      ensures (forall c :: c in destroyed <==> c in pool.live) && NoDup(destroyed)
      ensures |freed| == |pool.blocks| && forall i | 0 <= i < |freed| :: freed[i] == pool.blocks[i].begin
      ensures pool.listPtr == 0
    {
      DestroyedAreLive(pool);
      destroyed, freed := [], [];
      if pool.listPtr == 0 { return; }
      destroyed, freed := DestroyAll();
      pool.listPtr := 0;
    }

    method DestroyAll() returns (destroyed: seq<int>, freed: seq<int>)
      requires Valid() && pool.listPtr != 0
      modifies pool.store`mem
      ensures destroyed == Minus(Chunks(pool.blocks, pool.store.p), pool.store.free)
      ensures |freed| == |pool.blocks| && forall i | 0 <= i < |freed| :: freed[i] == pool.blocks[i].begin
    {
      ghost var m := pool.store.mem;
      destroyed, freed := [], [];
      var iter, iterSize := pool.listPtr, pool.listSize;
      pool.store.WordAt(0);
      var freedIter := pool.store.mem[FIRST];
      ghost var bi: nat, k: nat := 0, 0;
      StartBefore(pool.blocks, pool.store.free, pool.store.p);
      while iter != 0
        invariant bi <= |pool.blocks| && iter == NextPtr(pool.blocks, bi) && Intact(m, bi)
        invariant bi < |pool.blocks| ==> iterSize == PodSize(pool.blocks[bi].n, pool.store.p)
        invariant k <= |pool.store.free| && freedIter == pool.FreeAt(k)
        invariant bi < |pool.blocks| ==> Before(pool.store.free, k, iter)
        invariant destroyed == Minus(Chunks(pool.blocks[..bi], pool.store.p), pool.store.free)
        invariant |freed| == bi && forall i | 0 <= i < bi :: freed[i] == pool.blocks[i].begin
        decreases |pool.blocks| - bi
      {
        var d, nextPtr, nextSz;
        d, nextPtr, nextSz, freedIter, k := VisitBlock(iter, iterSize, freedIter, m, bi, k);
        destroyed := destroyed + d;
        MinusStep(pool.blocks, bi, pool.store.p, pool.store.free);
        freed := freed + [iter];
        iter, iterSize := nextPtr, nextSz;
        bi := bi + 1;
      }
      assert pool.blocks[..bi] == pool.blocks;
    }
  }
}
