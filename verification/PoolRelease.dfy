/** What `release_memory` must do: give back exactly the blocks whose chunks are all free. */
module PoolRelease {
  import opened Storage
  import opened PoolSpec

  ghost predicate AllFree(b: Block, free: seq<int>, p: nat) {
    Fits(free, p, b.n, b.begin)
  }

  ghost function Kept(blocks: seq<Block>, free: seq<int>, p: nat): seq<Block> {
    if blocks == [] then []
    else (if AllFree(blocks[0], free, p) then [] else [blocks[0]]) + Kept(blocks[1..], free, p)
  }

  ghost function Released(blocks: seq<Block>, free: seq<int>, p: nat): seq<Block> {
    if blocks == [] then []
    else (if AllFree(blocks[0], free, p) then [blocks[0]] else []) + Released(blocks[1..], free, p)
  }

  /** A block stays exactly if some chunk of it is not free. */
  lemma {:induction false} KeptIff(blocks: seq<Block>, free: seq<int>, p: nat, b: Block)
    ensures b in Kept(blocks, free, p) <==> b in blocks && exists c | c in Run(b.begin, b.n, p) :: c !in free
    ensures b in Released(blocks, free, p) <==> b in blocks && forall c | c in Run(b.begin, b.n, p) :: c in free
  {
    if blocks != [] { KeptIff(blocks[1..], free, p, b); }
  }

  /** The blocks that stay are those with a chunk that is not free, and those that go are all the others. */
  ghost predicate OnlyFreeGo(blocks: seq<Block>, gone: seq<Block>, all: seq<Block>, free: seq<int>, p: nat) {
    && (forall b :: b in blocks <==> b in all && exists c | c in Run(b.begin, b.n, p) :: c !in free)
    && (forall b :: b in gone <==> b in all && forall c | c in Run(b.begin, b.n, p) :: c in free)
  }

  lemma KeptAndReleased(all: seq<Block>, free: seq<int>, p: nat)
    ensures OnlyFreeGo(Kept(all, free, p), Released(all, free, p), all, free, p)
  {
    hide Run, Kept, Released;
    forall b: Block { KeptIff(all, free, p, b); }
  }

  /** If nothing is free any more, no block is. */
  lemma {:induction false} NoneFree(blocks: seq<Block>, free: seq<int>, p: nat)
    requires forall i | 0 <= i < |blocks| :: !AllFree(blocks[i], free, p)
    ensures Kept(blocks, free, p) == blocks && Released(blocks, free, p) == []
  {
    if blocks != [] { NoneFree(blocks[1..], free, p); }
  }

  function RemoveAt<T>(s: seq<T>, k: nat): seq<T>
    requires k < |s|
  {
    s[..k] + s[k + 1..]
  }

  lemma RemoveApart(blocks: seq<Block>, k: nat, p: nat)
    requires k < |blocks| && Apart(blocks, p)
    ensures Apart(RemoveAt(blocks, k), p)
  {
    var bs := RemoveAt(blocks, k);
    assert forall i | 0 <= i < |bs| :: bs[i] == blocks[if i < k then i else i + 1];
  }

  lemma HeadersRemove(mem: map<int, int>, m': map<int, int>, blocks: seq<Block>, k: nat, size: int, p: nat)
    requires p > 0 && k < |blocks| && HeadersOk(mem, blocks, p) && Apart(blocks, p)
    requires k + 1 < |blocks| ==> size == PodSize(blocks[k + 1].n, p)
    requires m' == if k == 0 then mem else WithHeader(mem, End(blocks[k - 1], p), NextPtr(blocks, k + 1), size)
    ensures HeadersOk(m', RemoveAt(blocks, k), p)
  {
    var bs := RemoveAt(blocks, k);
    EndsApart(blocks, p);
    forall i | 0 <= i < |bs| ensures HeaderAt(m', bs, i, p) {
      if i < k - 1 {
        assert HeaderAt(mem, blocks, i, p) && bs[i] == blocks[i] && bs[i + 1] == blocks[i + 1];
      } else if i >= k {
        assert HeaderAt(mem, blocks, i + 1, p) && bs[i] == blocks[i + 1];
        assert i + 1 < |bs| ==> bs[i + 1] == blocks[i + 2];
      } else {
        assert bs[i] == blocks[i] && (i + 1 < |bs| ==> bs[i + 1] == blocks[i + 2]);
      }
    }
  }

  lemma RemoveChunks(blocks: seq<Block>, k: nat, p: nat, c: int)
    requires p > 0 && k < |blocks| && Apart(blocks, p)
    ensures c in Chunks(RemoveAt(blocks, k), p) <==>
      c in Chunks(blocks, p) && c !in Run(blocks[k].begin, blocks[k].n, p)
  {
    var b, rest := blocks[k], RemoveAt(blocks, k);
    RemoveApart(blocks, k, p);
    assert InsertAt(rest, k, b) == blocks;
    InsertChunks(rest, k, b, p, c);
    if c in Chunks(rest, p) && c in Run(b.begin, b.n, p) {
      RunSpan(b.begin, b.n, p, c);
      var i := ChunkInBlock(rest, p, c);
    }
  }

  /** A wholly free block leaves with its chunks; the rest stays a partition. */
  lemma PartitionRemove(blocks: seq<Block>, k: nat, p: nat, free: seq<int>, owner: map<int, int>, s: nat)
    requires p > 0 && k < |blocks| && Apart(blocks, p) && Spaced(free, p) && Partition(Chunks(blocks, p), free, owner)
    requires s + blocks[k].n <= |free| && free[s..s + blocks[k].n] == Run(blocks[k].begin, blocks[k].n, p)
    ensures Partition(Chunks(RemoveAt(blocks, k), p), free[..s] + free[s + blocks[k].n..], owner)
  {
    var r, f := Run(blocks[k].begin, blocks[k].n, p), free[..s] + free[s + blocks[k].n..];
    assert forall c | c in r :: c in free;
    forall c ensures c in Chunks(RemoveAt(blocks, k), p) <==> c in Chunks(blocks, p) && c !in r {
      RemoveChunks(blocks, k, p, c);
    }
    forall c ensures c in f <==> c in free && c !in r {
      CutMembers(free, p, s, blocks[k].n, c);
    }
  }

  // ------------------------------------------------------ the lockstep walk, locally

  /** The walk stands before a block when the free chunks of earlier blocks are behind it. */
  ghost predicate Before(free: seq<int>, k: nat, begin: int) {
    && k <= |free|
    && (forall i | 0 <= i < k :: free[i] < begin)
    && (forall i | k <= i < |free| :: begin <= free[i])
  }

  /** Then the block is wholly free just when its chunks come next in the free list. */
  lemma AllFreeMeansNext(free: seq<int>, p: nat, k: nat, b: Block)
    requires p > 0 && b.n > 0 && Spaced(free, p) && Before(free, k, b.begin) && AllFree(b, free, p)
    ensures k + b.n <= |free| && free[k..k + b.n] == Run(b.begin, b.n, p)
  {
    HeadInRun(b.begin, b.n, p);
    var i :| 0 <= i < |free| && free[i] == b.begin;
    assert b.begin <= free[k];
    assert k == i;
    FitsIffContiguous(free, p, k, b.n);
    ContiguousIsRun(free, p, k, b.n);
  }

  lemma NextMeansAllFree(free: seq<int>, p: nat, k: nat, b: Block)
    requires k + b.n <= |free| && free[k..k + b.n] == Run(b.begin, b.n, p)
    ensures AllFree(b, free, p)
  {
    forall c | c in Run(b.begin, b.n, p) ensures c in free {
      assert c in free[k..k + b.n];
    }
  }

  /** A chunk at or behind the end of a block is at or behind the start of the next. */
  lemma BehindBlock(blocks: seq<Block>, k: nat, p: nat, c: int)
    requires p > 0 && Apart(blocks, p) && k < |blocks| && c in Chunks(blocks, p) && End(blocks[k], p) <= c
    ensures k + 1 < |blocks| && blocks[k + 1].begin <= c
  {
    EndsApart(blocks, p);
    var i := ChunkInBlock(blocks, p, c);
    if i > k + 1 {
      assert End(blocks[k + 1], p) + HEADER <= blocks[i].begin;
      MulLess(0, blocks[k + 1].n, p);
    }
  }

  lemma FirstBlockFirst(blocks: seq<Block>, p: nat, c: int)
    requires p > 0 && Apart(blocks, p) && c in Chunks(blocks, p)
    ensures blocks != [] && blocks[0].begin <= c
  {
    var i := ChunkInBlock(blocks, p, c);
    if i > 0 { MulLess(0, blocks[0].n, p); assert End(blocks[0], p) + HEADER <= blocks[i].begin; }
  }

  /** The memory left when the region of a block goes back to the system. */
  function Without(mem: map<int, int>, begin: int, size: nat): map<int, int> {
    map c | c in mem && !(begin <= c < begin + size) :: mem[c]
  }

  lemma HeadersWithout(mem: map<int, int>, blocks: seq<Block>, b: Block, p: nat)
    requires p > 0 && HeadersOk(mem, blocks, p) && Apart(blocks, p)
    requires FreshRegion(blocks, p, b.begin, PodSize(b.n, p))
    ensures HeadersOk(Without(mem, b.begin, PodSize(b.n, p)), blocks, p)
  {
    forall i | 0 <= i < |blocks| ensures HeaderAt(Without(mem, b.begin, PodSize(b.n, p)), blocks, i, p) {
      assert HeaderAt(mem, blocks, i, p);
      MulLess(0, blocks[i].n, p);
      assert End(blocks[i], p) + HEADER <= b.begin || b.begin + PodSize(b.n, p) <= blocks[i].begin;
    }
  }

  lemma ChainWithout(mem: map<int, int>, blocks: seq<Block>, b: Block, p: nat, free: seq<int>)
    requires p > 0 && Apart(blocks, p) && Chain(mem, [FIRST] + free, 0)
    requires FreshRegion(blocks, p, b.begin, PodSize(b.n, p))
    requires forall c | c in free :: c in Chunks(blocks, p)
    ensures Chain(Without(mem, b.begin, PodSize(b.n, p)), [FIRST] + free, 0)
  {
    var cells, m' := [FIRST] + free, Without(mem, b.begin, PodSize(b.n, p));
    forall j | 0 <= j < |cells| ensures cells[j] in m' && m'[cells[j]] == mem[cells[j]] {
      var c := cells[j];
      if j > 0 {
        assert c == free[j - 1] && c in free;
        var i := ChunkInBlock(blocks, p, c);
        assert End(blocks[i], p) + HEADER <= b.begin || b.begin + PodSize(b.n, p) <= blocks[i].begin;
      }
    }
  }

  lemma RemovedIsFresh(blocks: seq<Block>, k: nat, p: nat)
    requires p > 0 && k < |blocks| && Apart(blocks, p)
    ensures FreshRegion(RemoveAt(blocks, k), p, blocks[k].begin, PodSize(blocks[k].n, p))
  {
    var bs := RemoveAt(blocks, k);
    forall i | 0 <= i < |bs|
      ensures End(bs[i], p) + HEADER <= blocks[k].begin || blocks[k].begin + PodSize(blocks[k].n, p) <= bs[i].begin
    {
      assert bs[i] == blocks[if i < k then i else i + 1];
    }
  }

  lemma StillNotHeaders(blocks: seq<Block>, k: nat, p: nat, cells: seq<int>)
    requires k < |blocks| && forall c | c in cells :: NoHeader(blocks, p, c)
    ensures forall c | c in cells :: NoHeader(RemoveAt(blocks, k), p, c)
  {
    var bs := RemoveAt(blocks, k);
    assert forall i | 0 <= i < |bs| :: bs[i] == blocks[if i < k then i else i + 1];
  }

  // --------------------------------------------------------- the lockstep walk, as a whole

  /** How far the walk has come: the first kb blocks have been looked at and stay, the
      `released` ones are gone, and the free list `now` is behind its k-th chunk.  What is
      decided of the old blocks and what is left to decide make up the result. */
  ghost predicate Walk(blocks: seq<Block>, now: seq<int>, p: nat, all: seq<Block>, free: seq<int>,
                       kb: nat, k: nat, released: seq<Block>) {
    && p > 0 && kb <= |blocks| && k <= |now|
    && Kept(all, free, p) == blocks[..kb] + Kept(blocks[kb..], free, p)
    && Released(all, free, p) == released + Released(blocks[kb..], free, p)
    && (kb < |blocks| ==> Before(now, k, blocks[kb].begin))
    && (forall c :: c in now <==> c in free && c !in Chunks(released, p))
    && (forall c | c in Chunks(blocks, p) :: c !in Chunks(released, p))
  }

  lemma StartWalk(blocks: seq<Block>, free: seq<int>, p: nat, owner: map<int, int>)
    requires p > 0 && Apart(blocks, p) && Partition(Chunks(blocks, p), free, owner)
    ensures Walk(blocks, free, p, blocks, free, 0, 0, [])
  {
    assert blocks[0..] == blocks && blocks[..0] == [];
    if blocks != [] { StartBefore(blocks, free, p); }
  }

  lemma StartBefore(blocks: seq<Block>, free: seq<int>, p: nat)
    requires p > 0 && Apart(blocks, p) && blocks != [] && forall c | c in free :: c in Chunks(blocks, p)
    ensures Before(free, 0, blocks[0].begin)
  {
    forall j | 0 <= j < |free| ensures blocks[0].begin <= free[j] {
      var c := free[j];
      assert c in free;
      FirstBlockFirst(blocks, p, c);
    }
  }

  lemma {:induction false} BlockChunks(blocks: seq<Block>, k: nat, p: nat, c: int)
    requires k < |blocks| && c in Run(blocks[k].begin, blocks[k].n, p)
    ensures c in Chunks(blocks, p)
  {
    if k > 0 { BlockChunks(blocks[1..], k - 1, p, c); }
  }

  /** Whether a held block is wholly free does not depend on the blocks released before. */
  lemma StillAllFree(blocks: seq<Block>, now: seq<int>, p: nat, free: seq<int>, k: nat, released: seq<Block>)
    requires k < |blocks|
    requires forall c :: c in now <==> c in free && c !in Chunks(released, p)
    requires forall c | c in Chunks(blocks, p) :: c !in Chunks(released, p)
    ensures AllFree(blocks[k], now, p) <==> AllFree(blocks[k], free, p)
  {
    forall c | c in Run(blocks[k].begin, blocks[k].n, p) ensures c in now <==> c in free {
      BlockChunks(blocks, k, p, c);
    }
  }

  lemma WalkKeep(blocks: seq<Block>, now: seq<int>, p: nat, owner: map<int, int>, all: seq<Block>, free: seq<int>,
                 kb: nat, k: nat, k': nat, released: seq<Block>)
    requires Walk(blocks, now, p, all, free, kb, k, released) && kb < |blocks|
    requires Apart(blocks, p) && Partition(Chunks(blocks, p), now, owner)
    requires !AllFree(blocks[kb], now, p) && Before(now, k', End(blocks[kb], p))
    ensures Walk(blocks, now, p, all, free, kb + 1, k', released)
  {
    hide Apart, AllFree, Run, Before, Chunks, Kept, Released;
    StillAllFree(blocks, now, p, free, kb, released);
    OneKept(blocks, kb, p, all, free, released);
    FewerFree(blocks, now, p, owner);
    if kb + 1 < |blocks| { BehindKept(blocks, now, p, kb, k'); }
    BeforeCounts(now, k', End(blocks[kb], p));
  }

  lemma FewerFree(blocks: seq<Block>, now: seq<int>, p: nat, owner: map<int, int>)
    requires Partition(Chunks(blocks, p), now, owner)
    ensures forall c | c in now :: c in Chunks(blocks, p)
  {
    hide Chunks;
  }

  lemma BeforeCounts(now: seq<int>, k: nat, a: int)
    requires Before(now, k, a)
    ensures k <= |now|
  {
  }

  /** The block at kb moves from the blocks still to be looked at to the kept ones. */
  lemma OneKept(blocks: seq<Block>, kb: nat, p: nat, all: seq<Block>, free: seq<int>, released: seq<Block>)
    requires kb < |blocks| && !AllFree(blocks[kb], free, p)
    requires Kept(all, free, p) == blocks[..kb] + Kept(blocks[kb..], free, p)
    requires Released(all, free, p) == released + Released(blocks[kb..], free, p)
    ensures Kept(all, free, p) == blocks[..kb + 1] + Kept(blocks[kb + 1..], free, p)
    ensures Released(all, free, p) == released + Released(blocks[kb + 1..], free, p)
  {
    hide AllFree;
    assert blocks[kb..][1..] == blocks[kb + 1..] && blocks[..kb + 1] == blocks[..kb] + [blocks[kb]];
  }

  lemma BehindKept(blocks: seq<Block>, now: seq<int>, p: nat, kb: nat, k: nat)
    requires p > 0 && Apart(blocks, p) && kb + 1 < |blocks| && Before(now, k, End(blocks[kb], p))
    requires forall c | c in now :: c in Chunks(blocks, p)
    ensures Before(now, k, blocks[kb + 1].begin)
  {
    forall j | k <= j < |now| ensures blocks[kb + 1].begin <= now[j] {
      var c := now[j];
      assert c in now;
      BehindBlock(blocks, kb, p, c);
    }
  }

  lemma WalkRelease(blocks: seq<Block>, now: seq<int>, p: nat, all: seq<Block>, free: seq<int>,
                    kb: nat, k: nat, released: seq<Block>, blocks': seq<Block>, now': seq<int>)
    requires Walk(blocks, now, p, all, free, kb, k, released) && kb < |blocks| && blocks[kb].n > 0
    requires Apart(blocks, p) && Spaced(now, p) && AllFree(blocks[kb], now, p) && k + blocks[kb].n <= |now|
    requires forall c | c in now :: c in Chunks(blocks, p)
    requires now[k..k + blocks[kb].n] == Run(blocks[kb].begin, blocks[kb].n, p)
    requires blocks' == RemoveAt(blocks, kb) && now' == now[..k] + now[k + blocks[kb].n..]
    ensures Walk(blocks', now', p, all, free, kb, k, released + [blocks[kb]])
  {
    hide Apart, Spaced, AllFree, Run, Before, Chunks, Kept, Released;
    StillAllFree(blocks, now, p, free, kb, released);
    WalkMembers(blocks, kb, now, p, free, k, released);
    if kb + 1 < |blocks| { WalkBehind(blocks, now, p, kb, k); }
    OneReleased(blocks, kb, p, all, free, released);
  }

  /** The block at kb moves from the blocks still to be looked at to the released ones. */
  lemma OneReleased(blocks: seq<Block>, kb: nat, p: nat, all: seq<Block>, free: seq<int>, released: seq<Block>)
    requires kb < |blocks| && AllFree(blocks[kb], free, p)
    requires Kept(all, free, p) == blocks[..kb] + Kept(blocks[kb..], free, p)
    requires Released(all, free, p) == released + Released(blocks[kb..], free, p)
    ensures var blocks' := RemoveAt(blocks, kb);
      && Kept(all, free, p) == blocks'[..kb] + Kept(blocks'[kb..], free, p)
      && Released(all, free, p) == released + [blocks[kb]] + Released(blocks'[kb..], free, p)
      && |blocks'| == |blocks| - 1 && (kb < |blocks'| ==> blocks'[kb] == blocks[kb + 1])
  {
    hide AllFree;
    assert RemoveAt(blocks, kb)[kb..] == blocks[kb..][1..] && RemoveAt(blocks, kb)[..kb] == blocks[..kb];
  }

  lemma WalkMembers(blocks: seq<Block>, kb: nat, now: seq<int>, p: nat, free: seq<int>, k: nat, released: seq<Block>)
    requires p > 0 && Spaced(now, p) && kb < |blocks| && Apart(blocks, p) && k + blocks[kb].n <= |now|
    requires now[k..k + blocks[kb].n] == Run(blocks[kb].begin, blocks[kb].n, p)
    requires forall c :: c in now <==> c in free && c !in Chunks(released, p)
    requires forall c | c in Chunks(blocks, p) :: c !in Chunks(released, p)
    ensures var b := blocks[kb];
      && (forall c :: c in now[..k] + now[k + b.n..] <==> c in free && c !in Chunks(released + [b], p))
      && (forall c | c in Chunks(RemoveAt(blocks, kb), p) :: c !in Chunks(released + [b], p))
  {
    var b := blocks[kb];
    ChunksAppend(released, [b], p);
    assert [b][1..] == [] && Chunks([b], p) == Run(b.begin, b.n, p) + [];
    forall c ensures c in now[..k] + now[k + b.n..] <==> c in free && c !in Chunks(released + [b], p) {
      CutMembers(now, p, k, b.n, c);
    }
    forall c | c in Chunks(RemoveAt(blocks, kb), p) ensures c !in Chunks(released + [b], p) {
      RemoveChunks(blocks, kb, p, c);
    }
  }

  lemma WalkBehind(blocks: seq<Block>, now: seq<int>, p: nat, kb: nat, k: nat)
    requires p > 0 && Apart(blocks, p) && Spaced(now, p) && kb + 1 < |blocks| && Before(now, k, blocks[kb].begin)
    requires forall c | c in now :: c in Chunks(blocks, p)
    requires k + blocks[kb].n <= |now| && now[k..k + blocks[kb].n] == Run(blocks[kb].begin, blocks[kb].n, p)
    ensures Before(now[..k] + now[k + blocks[kb].n..], k, blocks[kb + 1].begin)
  {
    hide Spaced, Chunks, Run;
    var next := blocks[kb + 1].begin;
    BehindRun(now, p, k, blocks[kb]);
    assert blocks[kb].begin <= next by { MulLess(0, blocks[kb].n, p); }
    forall j | k + blocks[kb].n <= j < |now| ensures next <= now[j] {
      var c := now[j];
      assert c in now;
      BehindBlock(blocks, kb, p, c);
    }
    CutBefore(now, k, blocks[kb].n, blocks[kb].begin, next);
  }

  lemma BehindRun(now: seq<int>, p: nat, k: nat, b: Block)
    requires p > 0 && b.n > 0 && Spaced(now, p) && k + b.n <= |now| && now[k..k + b.n] == Run(b.begin, b.n, p)
    ensures forall j | k + b.n <= j < |now| :: End(b, p) <= now[j]
  {
    RunAt(b.begin, b.n, p, b.n - 1);
    assert now[k + b.n - 1] == now[k..k + b.n][b.n - 1];
    assert (b.n - 1) * p + p == b.n * p;
  }

  lemma CutBefore(now: seq<int>, k: nat, n: nat, begin: int, next: int)
    requires k + n <= |now| && begin <= next && Before(now, k, begin)
    requires forall j | k + n <= j < |now| :: next <= now[j]
    ensures Before(now[..k] + now[k + n..], k, next)
  {
    var f := now[..k] + now[k + n..];
    assert forall i | k <= i < |f| :: f[i] == now[i + n];
  }

  /** At the end of the walk, or when no chunk is free any more. */
  lemma WalkDone(blocks: seq<Block>, now: seq<int>, p: nat, all: seq<Block>, free: seq<int>,
                 kb: nat, k: nat, released: seq<Block>)
    requires Walk(blocks, now, p, all, free, kb, k, released) && (kb == |blocks| || k == |now|) && Apart(blocks, p)
    ensures blocks == Kept(all, free, p) && released == Released(all, free, p)
    ensures forall c :: c in now <==> c in free && c !in Chunks(released, p)
  {
    hide Chunks, AllFree, Run, Apart, Before, Kept, Released;
    if k == |now| { RestStays(blocks, now, p, free, kb, k, released); }
    NoneFree(blocks[kb..], free, p);
    assert blocks == blocks[..kb] + blocks[kb..];
  }

  lemma RestStays(blocks: seq<Block>, now: seq<int>, p: nat, free: seq<int>, kb: nat, k: nat, released: seq<Block>)
    requires p > 0 && Apart(blocks, p) && kb <= |blocks| && k == |now|
    requires kb < |blocks| ==> Before(now, k, blocks[kb].begin)
    requires forall c :: c in now <==> c in free && c !in Chunks(released, p)
    requires forall c | c in Chunks(blocks, p) :: c !in Chunks(released, p)
    ensures forall j | 0 <= j < |blocks[kb..]| :: !AllFree(blocks[kb..][j], free, p)
  {
    forall j | 0 <= j < |blocks[kb..]| ensures !AllFree(blocks[kb..][j], free, p) {
      assert blocks[kb..][j] == blocks[kb + j];
      StillAllFree(blocks, now, p, free, kb + j, released);
      NothingBehind(blocks, kb, now, p, k, kb + j);
    }
  }

  lemma NothingBehind(all: seq<Block>, i: nat, now: seq<int>, p: nat, k: nat, j: nat)
    requires p > 0 && Apart(all, p) && i <= j < |all| && k == |now| && Before(now, k, all[i].begin)
    ensures !AllFree(all[j], now, p)
  {
    HeadInRun(all[j].begin, all[j].n, p);
    MulLess(0, all[i].n, p);
    assert all[i].begin <= all[j].begin;
  }
}
