/** The shape of a pool (pool.hpp): blocks with a trailing header, cut into chunks, each
    chunk free or part of one live allocation. */
module PoolSpec {
  import opened Storage

  const WORD := 8        // sizeof(void *), sizeof(size_type), and their least common multiple
  const HEADER := 16     // next pointer and next size at the end of a block

  /** A block of n chunks of p bytes. */
  datatype Block = Block(begin: int, n: nat)

  function End(b: Block, p: nat): int {
    b.begin + b.n * p
  }

  function PodSize(n: nat, p: nat): nat {
    n * p + HEADER
  }

  /** Address order, and no two blocks overlapping. */
  ghost predicate Apart(blocks: seq<Block>, p: nat) {
    && (forall i | 0 <= i < |blocks| :: 0 < blocks[i].begin && 0 < blocks[i].n)
    && (forall i, j | 0 <= i < j < |blocks| :: End(blocks[i], p) + HEADER <= blocks[j].begin)
  }

  ghost function Chunks(blocks: seq<Block>, p: nat): seq<int> {
    if blocks == [] then [] else Run(blocks[0].begin, blocks[0].n, p) + Chunks(blocks[1..], p)
  }

  lemma {:induction false} ChunksAppend(a: seq<Block>, b: seq<Block>, p: nat)
    ensures Chunks(a + b, p) == Chunks(a, p) + Chunks(b, p)
  {
    if a == [] {
      assert a + b == b;
    } else {
      assert (a + b)[1..] == a[1..] + b;
      ChunksAppend(a[1..], b, p);
    }
  }

  lemma RunSpan(a: int, n: nat, p: nat, c: int)
    requires p > 0 && c in Run(a, n, p)
    ensures a <= c && c + p <= a + n * p
  {
    var i :| 0 <= i < n && Run(a, n, p)[i] == c;
    RunAt(a, n, p, i);
    MulLess(i, n, p);
    MulLess(0, i, p);
  }

  /** Every chunk lies inside its block, before the header. */
  lemma {:induction false} ChunkInBlock(blocks: seq<Block>, p: nat, c: int) returns (i: nat)
    requires p > 0 && c in Chunks(blocks, p)
    ensures i < |blocks| && c in Run(blocks[i].begin, blocks[i].n, p)
    ensures blocks[i].begin <= c && c + p <= End(blocks[i], p)
  {
    if c in Run(blocks[0].begin, blocks[0].n, p) {
      RunSpan(blocks[0].begin, blocks[0].n, p, c);
      i := 0;
    } else {
      i := ChunkInBlock(blocks[1..], p, c);
      i := i + 1;
    }
  }

  /** The chunks of all blocks, in order, do not overlap. */
  lemma {:induction false} ChunksSpaced(blocks: seq<Block>, p: nat)
    requires p > 0 && Apart(blocks, p)
    ensures Spaced(Chunks(blocks, p), p)
  {
    if blocks != [] {
      var r, rest := Run(blocks[0].begin, blocks[0].n, p), Chunks(blocks[1..], p);
      ChunksSpaced(blocks[1..], p);
      RunSteps(blocks[0].begin, blocks[0].n, p);
      forall i | 0 <= i < |r| ensures 0 < r[i] && r[i] + p <= End(blocks[0], p) {
        var c := r[i];
        assert c in r;
        RunSpan(blocks[0].begin, blocks[0].n, p, c);
      }
      forall j | 0 <= j < |rest| ensures End(blocks[0], p) <= rest[j] {
        var c := rest[j];
        assert c in rest;
        var k := ChunkInBlock(blocks[1..], p, c);
        assert blocks[1..][k] == blocks[k + 1];
      }
    }
  }

  // ---------------------------------------------------------------- the partition

  /** Each chunk is free or owned, and not both. */
  ghost predicate Partition(chunks: seq<int>, free: seq<int>, owner: map<int, int>) {
    && (forall c :: c in chunks <==> c in free || c in owner)
    && (forall c | c in free :: c !in owner)
  }

  ghost predicate Owns(owner: map<int, int>, r: seq<int>, a: int) {
    forall c | c in r :: c in owner && owner[c] == a
  }

  /** The owned chunks are those of the live allocations: `live[a]` chunks from `a` on. */
  ghost predicate Owned(owner: map<int, int>, live: map<int, nat>, p: nat) {
    && (forall a | a in live :: 0 < live[a] && Owns(owner, Run(a, live[a], p), a))
    && (forall c | c in owner :: owner[c] in live && c in Run(owner[c], live[owner[c]], p))
  }

  lemma HeadInRun(a: int, n: nat, p: nat)
    requires n > 0
    ensures a in Run(a, n, p) && Run(a, n, p)[0] == a
  {
    assert Run(a, n, p)[0] == a;
  }

  ghost function Assign(owner: map<int, int>, r: seq<int>, a: int): map<int, int> {
    owner + map c | c in r :: a
  }

  /** An allocation takes unowned chunks. */
  lemma OwnedTake(owner: map<int, int>, live: map<int, nat>, p: nat, a: int, n: nat)
    requires Owned(owner, live, p) && n > 0 && forall c | c in Run(a, n, p) :: c !in owner
    ensures Owned(Assign(owner, Run(a, n, p), a), live[a := n], p)
  {
    var r := Run(a, n, p);
    var owner', live' := Assign(owner, r, a), live[a := n];
    HeadInRun(a, n, p);
    if a in live { HeadInRun(a, live[a], p); }
    assert a !in live;
    forall b | b in live' ensures 0 < live'[b] && Owns(owner', Run(b, live'[b], p), b) {
      if b != a { assert Owns(owner, Run(b, live[b], p), b); }
    }
  }

  ghost function Give(live: map<int, nat>, a: int, n: nat): map<int, nat> {
    if n == 0 then live else live[a := n]
  }

  lemma OwnedGrow(owner: map<int, int>, live: map<int, nat>, p: nat, a: int, n: nat)
    requires Owned(owner, live, p) && forall c | c in Run(a, n, p) :: c !in owner
    ensures Owned(Assign(owner, Run(a, n, p), a), Give(live, a, n), p)
    ensures n > 0 ==> a !in live
  {
    if n > 0 {
      OwnedTake(owner, live, p, a, n);
      HeadInRun(a, n, p);
      if a in live { HeadInRun(a, live[a], p); }
    } else {
      assert Assign(owner, Run(a, n, p), a) == owner;
    }
  }

  ghost function Release(owner: map<int, int>, r: seq<int>): map<int, int> {
    map c | c in owner && c !in r :: owner[c]
  }

  /** Giving an allocation back leaves the others as they were. */
  lemma OwnedGive(owner: map<int, int>, live: map<int, nat>, p: nat, a: int)
    requires Owned(owner, live, p) && a in live
    ensures Owned(Release(owner, Run(a, live[a], p)), live - {a}, p)
  {
    var owner', live' := Release(owner, Run(a, live[a], p)), live - {a};
    forall b | b in live' ensures 0 < live'[b] && Owns(owner', Run(b, live'[b], p), b) {
      assert Owns(owner, Run(b, live[b], p), b) && Owns(owner, Run(a, live[a], p), a);
    }
  }

  /** Live allocations do not overlap. */
  lemma LiveDisjoint(owner: map<int, int>, live: map<int, nat>, p: nat, a: int, b: int)
    requires Owned(owner, live, p) && a in live && b in live && a != b
    ensures forall c | c in Run(a, live[a], p) :: c !in Run(b, live[b], p)
  {
    assert Owns(owner, Run(a, live[a], p), a) && Owns(owner, Run(b, live[b], p), b);
  }

  /** A stretch of chunks all of which are owned is clear of the free list. */
  lemma OwnedRunIsClear(chunks: seq<int>, free: seq<int>, owner: map<int, int>, p: nat, a: int, n: nat)
    requires p > 0 && n > 0 && Spaced(chunks, p) && Partition(chunks, free, owner)
    requires forall c | c in Run(a, n, p) :: c in owner
    ensures Clear(free, Run(a, n, p), p) && 0 < a
  {
    var r := Run(a, n, p);
    HeadInRun(a, n, p);
    var s :| 0 <= s < |chunks| && chunks[s] == a;
    assert Fits(chunks, p, n, a);
    FitIsContiguous(chunks, p, n, s, n - 1);
    RunAt(a, n, p, n - 1);
    forall i | 0 <= i < |free| ensures free[i] + p <= r[0] || r[|r| - 1] + p <= free[i] {
      var f := free[i];
      assert f in free;
      var t :| 0 <= t < |chunks| && chunks[t] == f;
      if s <= t < s + n {
        FitIsContiguous(chunks, p, n, s, t - s);
        RunAt(a, n, p, t - s);
        assert false;
      }
    }
  }

  lemma {:induction false} RunSplit(a: int, m: nat, n: nat, p: nat)
    ensures Run(a, m + n, p) == Run(a, m, p) + Run(a + m * p, n, p)
    decreases m
  {
    if m > 0 {
      RunSplit(a + p, m - 1, n, p);
      assert a + p + (m - 1) * p == a + m * p;
    }
  }

  /** Taking a stretch out of a spaced list takes out exactly its members. */
  lemma CutMembers(free: seq<int>, p: nat, s: nat, n: nat, c: int)
    requires p > 0 && Spaced(free, p) && s + n <= |free|
    ensures c in free[..s] + free[s + n..] <==> c in free && c !in free[s..s + n]
  {
    var r, rest := free[s..s + n], free[..s] + free[s + n..];
    assert free == free[..s] + r + free[s + n..];
  }

  lemma PartitionTake(chunks: seq<int>, free: seq<int>, owner: map<int, int>, p: nat, s: nat, n: nat, a: int)
    requires p > 0 && Spaced(free, p) && s + n <= |free| && Partition(chunks, free, owner)
    ensures Partition(chunks, free[..s] + free[s + n..], Assign(owner, free[s..s + n], a))
    ensures forall c | c in free[s..s + n] :: c !in owner
  {
    forall c ensures c in free[..s] + free[s + n..] <==> c in free && c !in free[s..s + n] {
      CutMembers(free, p, s, n, c);
    }
    forall c | c in free[s..s + n] ensures c in free { }
  }

  lemma PartitionGive(chunks: seq<int>, free: seq<int>, owner: map<int, int>, k: nat, r: seq<int>)
    requires k <= |free| && Partition(chunks, free, owner) && forall c | c in r :: c in owner
    ensures Partition(chunks, free[..k] + r + free[k..], Release(owner, r))
  {
    var f := free[..k] + r + free[k..];
    assert free == free[..k] + free[k..];
    forall c ensures c in f <==> c in free || c in r { }
  }

  // ------------------------------------------------------------- the block headers

  /** The two words behind the chunks of a block: where the next block is, how big it is. */
  ghost predicate HeaderAt(mem: map<int, int>, blocks: seq<Block>, i: nat, p: nat)
    requires i < |blocks|
  {
    var e := End(blocks[i], p);
    && e in mem && e + WORD in mem
    && mem[e] == (if i + 1 < |blocks| then blocks[i + 1].begin else 0)
    && (i + 1 < |blocks| ==> mem[e + WORD] == PodSize(blocks[i + 1].n, p))
  }

  ghost predicate HeadersOk(mem: map<int, int>, blocks: seq<Block>, p: nat) {
    forall i | 0 <= i < |blocks| :: HeaderAt(mem, blocks, i, p)
  }

  ghost predicate NoHeader(blocks: seq<Block>, p: nat, c: int) {
    forall i | 0 <= i < |blocks| :: c != End(blocks[i], p) && c != End(blocks[i], p) + WORD
  }

  lemma HeadersFrame(m: map<int, int>, m': map<int, int>, blocks: seq<Block>, p: nat, cells: seq<int>)
    requires HeadersOk(m, blocks, p) && SameOutside(m, m', cells)
    requires forall c | c in cells :: NoHeader(blocks, p, c)
    ensures HeadersOk(m', blocks, p)
  {
    forall i | 0 <= i < |blocks| ensures HeaderAt(m', blocks, i, p) {
      assert HeaderAt(m, blocks, i, p);
      var e := End(blocks[i], p);
      assert e !in cells && e + WORD !in cells;
    }
  }

  lemma ChunkNotHeader(blocks: seq<Block>, p: nat, c: int)
    requires p > 0 && Apart(blocks, p) && (c in Chunks(blocks, p) || c < 0)
    ensures NoHeader(blocks, p, c)
  {
    forall i | 0 <= i < |blocks| ensures c != End(blocks[i], p) && c != End(blocks[i], p) + WORD {
      MulLess(0, blocks[i].n, p);
      if c >= 0 {
        var k := ChunkInBlock(blocks, p, c);
        MulLess(0, blocks[k].n, p);
        assert k < i ==> End(blocks[k], p) + HEADER <= blocks[i].begin;
        assert i < k ==> End(blocks[i], p) + HEADER <= blocks[k].begin;
      }
    }
  }

  // ------------------------------------------------------------------ a new block

  /** What `UserAllocator::malloc` promises: a region no held block overlaps. */
  ghost predicate FreshRegion(blocks: seq<Block>, p: nat, begin: int, size: nat) {
    && 0 < begin
    && forall i | 0 <= i < |blocks| :: End(blocks[i], p) + HEADER <= begin || begin + size <= blocks[i].begin
  }

  ghost function InsertAt<T>(s: seq<T>, k: nat, x: T): seq<T>
    requires k <= |s|
  {
    s[..k] + [x] + s[k..]
  }

  /** One element more, somewhere. */
  ghost predicate GrewBy<T>(s: seq<T>, s': seq<T>, x: T) {
    exists k :: 0 <= k <= |s| && s' == InsertAt(s, k, x)
  }

  lemma InsertApart(blocks: seq<Block>, k: nat, b: Block, p: nat)
    requires p > 0 && Apart(blocks, p) && b.n > 0 && FreshRegion(blocks, p, b.begin, PodSize(b.n, p))
    requires k <= |blocks| && (k > 0 ==> blocks[k - 1].begin <= b.begin) && (k < |blocks| ==> blocks[k].begin > b.begin)
    ensures Apart(InsertAt(blocks, k, b), p)
  {
    forall i | 0 <= i < |blocks| ensures blocks[i].begin < End(blocks[i], p) { MulLess(0, blocks[i].n, p); }
    MulLess(0, b.n, p);
    forall i | 0 <= i < k ensures End(blocks[i], p) + HEADER <= b.begin {
      if i < k - 1 { assert End(blocks[i], p) + HEADER <= blocks[k - 1].begin; }
    }
    forall i | k <= i < |blocks| ensures End(b, p) + HEADER <= blocks[i].begin {
      if k < i { assert End(blocks[k], p) + HEADER <= blocks[i].begin; }
    }
    InsertSpaced(blocks, k, b, p);
  }

  lemma InsertSpaced(blocks: seq<Block>, k: nat, b: Block, p: nat)
    requires Apart(blocks, p) && k <= |blocks| && 0 < b.begin && 0 < b.n
    requires forall i | 0 <= i < k :: End(blocks[i], p) + HEADER <= b.begin
    requires forall i | k <= i < |blocks| :: End(b, p) + HEADER <= blocks[i].begin
    ensures Apart(InsertAt(blocks, k, b), p)
  {
    var bs := InsertAt(blocks, k, b);
    forall i, j | 0 <= i < j < |bs| ensures End(bs[i], p) + HEADER <= bs[j].begin {
      if i != k && j != k {
        assert bs[i] == blocks[if i < k then i else i - 1] && bs[j] == blocks[if j < k then j else j - 1];
      }
    }
  }

  lemma InsertChunks(blocks: seq<Block>, k: nat, b: Block, p: nat, c: int)
    requires k <= |blocks|
    ensures c in Chunks(InsertAt(blocks, k, b), p) <==> c in Chunks(blocks, p) || c in Run(b.begin, b.n, p)
  {
    ChunksAppend(blocks[..k], blocks[k..], p);
    assert blocks == blocks[..k] + blocks[k..];
    ChunksAppend(blocks[..k] + [b], blocks[k..], p);
    ChunksAppend(blocks[..k], [b], p);
    assert [b][1..] == [];
    assert Chunks([b], p) == Run(b.begin, b.n, p) + [];
  }

  /** A run inside a fresh region is clear of every chunk already held. */
  lemma FreshIsClear(blocks: seq<Block>, p: nat, begin: int, size: nat, a: int, n: nat, c: int)
    requires p > 0 && Apart(blocks, p) && FreshRegion(blocks, p, begin, size)
    requires n > 0 && begin <= a && a + n * p <= begin + size && c in Chunks(blocks, p)
    ensures var r := Run(a, n, p); c + p <= r[0] || r[|r| - 1] + p <= c
    ensures c !in Run(a, n, p)
  {
    var i := ChunkInBlock(blocks, p, c);
    RunAt(a, n, p, 0);
    RunAt(a, n, p, n - 1);
    assert (n - 1) * p + p == n * p;
    if c in Run(a, n, p) { RunSpan(a, n, p, c); }
  }

  /** A new block of m + n chunks: the first m are handed out at once, the rest are free. */
  lemma PartitionGrow(chunks: seq<int>, chunks': seq<int>, free: seq<int>, free': seq<int>, owner: map<int, int>,
                      given: seq<int>, rest: seq<int>, a: int)
    requires Partition(chunks, free, owner)
    requires forall c :: c in chunks' <==> c in chunks || c in given + rest
    requires forall c :: c in free' <==> c in free || c in rest
    requires forall c | c in chunks :: c !in given + rest
    requires forall c | c in given :: c !in rest
    ensures Partition(chunks', free', Assign(owner, given, a))
    ensures forall c | c in given :: c !in owner
  {
    assert forall c :: c in given + rest <==> c in given || c in rest;
  }

  lemma SliceSnoc<T>(s: seq<T>, k: nat, m: nat)
    requires k + m < |s|
    ensures s[k..k + m + 1] == s[k..k + m] + [s[k + m]]
  {
  }

  lemma EndsApart(blocks: seq<Block>, p: nat)
    requires p > 0 && Apart(blocks, p)
    ensures forall i, j | 0 <= i < j < |blocks| :: End(blocks[i], p) + HEADER < End(blocks[j], p)
    ensures forall i | 0 <= i < |blocks| :: 0 < End(blocks[i], p)
  {
    forall i | 0 <= i < |blocks| ensures blocks[i].begin < End(blocks[i], p) { MulLess(0, blocks[i].n, p); }
  }

  function WithHeader(mem: map<int, int>, e: int, next: int, size: int): map<int, int> {
    mem[e := next][e + WORD := size]
  }

  function NextPtr(blocks: seq<Block>, k: nat): int {
    if k < |blocks| then blocks[k].begin else 0
  }

  /** Writing the headers of a new k-th block and of its predecessor links it in. */
  lemma HeadersInsert(mem: map<int, int>, m': map<int, int>, blocks: seq<Block>, k: nat, b: Block, size: int, p: nat)
    requires p > 0 && k <= |blocks| && HeadersOk(mem, blocks, p) && Apart(InsertAt(blocks, k, b), p)
    requires k < |blocks| ==> size == PodSize(blocks[k].n, p)
    requires var m := WithHeader(mem, End(b, p), NextPtr(blocks, k), size);
      m' == if k == 0 then m else WithHeader(m, End(blocks[k - 1], p), b.begin, PodSize(b.n, p))
    ensures HeadersOk(m', InsertAt(blocks, k, b), p)
  {
    var bs := InsertAt(blocks, k, b);
    EndsApart(bs, p);
    assert bs[k] == b && (k > 0 ==> bs[k - 1] == blocks[k - 1]);
    forall i | 0 <= i < |bs| ensures HeaderAt(m', bs, i, p) {
      if i < k - 1 {
        assert HeaderAt(mem, blocks, i, p) && bs[i] == blocks[i] && bs[i + 1] == blocks[i + 1];
      } else if i > k {
        assert HeaderAt(mem, blocks, i - 1, p) && bs[i] == blocks[i - 1];
        assert i + 1 < |bs| ==> bs[i + 1] == blocks[i];
      } else if i == k {
        assert i + 1 < |bs| ==> bs[i + 1] == blocks[k];
      }
    }
  }

  lemma ExactChunks(n: nat, p: nat)
    requires p > 0
    ensures n * p / p == n
  {
    DivUnique(n * p, n, 0, p);
  }

  /** The part of a fresh block that is not handed out: where it is, and how much. */
  lemma RestOfBlock(blocks: seq<Block>, p: nat, begin: int, num: nat, n: nat, free: seq<int>, owner: map<int, int>)
    requires p > 0 && Apart(blocks, p) && FreshRegion(blocks, p, begin, PodSize(n, p)) && num < n
    requires Partition(Chunks(blocks, p), free, owner)
    ensures var a, sz := begin + num * p, n * p - num * p;
      sz >= p && sz / p == n - num && 0 < a && Clear(free, Run(a, n - num, p), p)
  {
    var a := begin + num * p;
    MulLess(num, n, p);
    MulLess(0, num, p);
    MinusTimes(n, num, p);
    ExactChunks(n - num, p);
    RestClear(blocks, p, begin, PodSize(n, p), a, n - num, free, owner);
  }

  lemma MinusTimes(n: nat, k: nat, p: nat)
    requires k <= n
    ensures n * p - k * p == (n - k) * p
  {
  }

  lemma RestClear(blocks: seq<Block>, p: nat, begin: int, size: nat, a: int, n: nat, free: seq<int>, owner: map<int, int>)
    requires p > 0 && Apart(blocks, p) && FreshRegion(blocks, p, begin, size)
    requires Partition(Chunks(blocks, p), free, owner)
    requires n > 0 && begin <= a && a + n * p <= begin + size
    ensures Clear(free, Run(a, n, p), p)
  {
    hide FreshRegion, Apart, Run, Chunks;
    HeadInRun(a, n, p);
    forall i | 0 <= i < |free| ensures var r := Run(a, n, p); free[i] + p <= r[0] || r[|r| - 1] + p <= free[i] {
      var f := free[i];
      assert f in free;
      FreshIsClear(blocks, p, begin, size, a, n, f);
    }
  }

  /** The chunks of a fresh block: the first num, the rest, and nothing held before. */
  lemma FreshChunks(blocks: seq<Block>, p: nat, begin: int, num: nat, n: nat)
    requires p > 0 && Apart(blocks, p) && FreshRegion(blocks, p, begin, PodSize(n, p)) && num <= n && n > 0
    ensures var given, rest := Run(begin, num, p), Run(begin + num * p, n - num, p);
      && Run(begin, n, p) == given + rest
      && (forall c | c in Chunks(blocks, p) :: c !in given + rest)
      && (forall c | c in given :: c !in rest)
  {
    RunSplit(begin, num, n - num, p);
    var given, rest := Run(begin, num, p), Run(begin + num * p, n - num, p);
    forall c | c in Chunks(blocks, p) ensures c !in given + rest {
      FreshIsClear(blocks, p, begin, PodSize(n, p), begin, n, c);
    }
    forall c | c in given ensures c !in rest {
      RunSpan(begin, num, p, c);
      if c in rest { RunSpan(begin + num * p, n - num, p, c); }
    }
  }

  lemma FreshNotHeader(blocks: seq<Block>, p: nat, begin: int, size: nat, c: int)
    requires FreshRegion(blocks, p, begin, size) && begin <= c < begin + size && p > 0 && Apart(blocks, p)
    ensures NoHeader(blocks, p, c)
  {
    forall i | 0 <= i < |blocks| ensures c != End(blocks[i], p) && c != End(blocks[i], p) + WORD {
      MulLess(0, blocks[i].n, p);
      assert End(blocks[i], p) + HEADER <= begin || begin + size <= blocks[i].begin;
    }
  }

  /** Only words of block headers differ. */
  ghost predicate SameBesidesHeaders(m: map<int, int>, m': map<int, int>, blocks: seq<Block>, p: nat) {
    forall c | NoHeader(blocks, p, c) :: (c in m <==> c in m') && (c in m ==> m'[c] == m[c])
  }

  lemma OnlyHeader(m: map<int, int>, blocks: seq<Block>, i: nat, p: nat, next: int, size: int)
    requires i < |blocks|
    ensures SameBesidesHeaders(m, WithHeader(m, End(blocks[i], p), next, size), blocks, p)
  {
  }

  /** The free list does not run through headers, so writing those does not touch it. */
  lemma ChainBesidesHeaders(m: map<int, int>, m': map<int, int>, blocks: seq<Block>, p: nat, free: seq<int>)
    requires p > 0 && Apart(blocks, p) && SameBesidesHeaders(m, m', blocks, p) && Chain(m, [FIRST] + free, 0)
    requires forall c | c in free :: c in Chunks(blocks, p)
    ensures Chain(m', [FIRST] + free, 0)
  {
    var cells := [FIRST] + free;
    forall j | 0 <= j < |cells| ensures cells[j] in m' && m'[cells[j]] == m[cells[j]] {
      var c := cells[j];
      if j > 0 { assert c == free[j - 1] && c in free; }
      ChunkNotHeader(blocks, p, c);
    }
  }

  /** A block of n chunks joins at the k-th place; its first num chunks are given out. */
  lemma PartitionGrowBlock(blocks: seq<Block>, p: nat, k: nat, begin: int, num: nat, n: nat,
                           free: seq<int>, free': seq<int>, owner: map<int, int>, j: nat)
    requires p > 0 && Apart(blocks, p) && FreshRegion(blocks, p, begin, PodSize(n, p)) && num <= n && n > 0
    requires k <= |blocks| && Partition(Chunks(blocks, p), free, owner)
    requires j <= |free| && free' == free[..j] + Run(begin + num * p, n - num, p) + free[j..]
    ensures Partition(Chunks(InsertAt(blocks, k, Block(begin, n)), p), free', Assign(owner, Run(begin, num, p), begin))
    ensures forall c | c in Run(begin, num, p) :: c !in owner
    ensures forall c | c in free' :: c in Chunks(InsertAt(blocks, k, Block(begin, n)), p)
  {
    var b := Block(begin, n);
    var given, rest := Run(begin, num, p), Run(begin + num * p, n - num, p);
    var chunks, chunks' := Chunks(blocks, p), Chunks(InsertAt(blocks, k, b), p);
    FreshChunks(blocks, p, begin, num, n);
    forall c ensures c in chunks' <==> c in chunks || c in given + rest { InsertChunks(blocks, k, b, p, c); }
    assert free == free[..j] + free[j..];
    forall c ensures c in free' <==> c in free || c in rest { }
    PartitionGrow(chunks, chunks', free, free', owner, given, rest, begin);
  }

  lemma RestNotHeaders(blocks: seq<Block>, p: nat, begin: int, num: nat, n: nat)
    requires p > 0 && Apart(blocks, p) && FreshRegion(blocks, p, begin, PodSize(n, p)) && num < n
    ensures forall c | c in Run(begin + num * p, n - num, p) :: NoHeader(blocks, p, c)
  {
    MulLess(0, num, p);
    assert begin + num * p + (n - num) * p == begin + n * p;
    forall c | c in Run(begin + num * p, n - num, p) ensures NoHeader(blocks, p, c) {
      RunSpan(begin + num * p, n - num, p, c);
      FreshNotHeader(blocks, p, begin, PodSize(n, p), c);
    }
  }

  // ------------------------------------------------- what the partition means to callers

  /** Where the n chunks from `a` stand among all chunks. */
  lemma RunPlace(chunks: seq<int>, p: nat, a: int, n: nat) returns (s: nat)
    requires p > 0 && n > 0 && Spaced(chunks, p) && forall c | c in Run(a, n, p) :: c in chunks
    ensures s + n <= |chunks| && forall j | 0 <= j < n :: chunks[s + j] == a + j * p
  {
    HeadInRun(a, n, p);
    s :| 0 <= s < |chunks| && chunks[s] == a;
    forall j | 0 <= j < n ensures s + j < |chunks| && chunks[s + j] == a + j * p {
      FitIsContiguous(chunks, p, n, s, j);
    }
    FitIsContiguous(chunks, p, n, s, n - 1);
  }

  lemma LiveRun(owner: map<int, int>, live: map<int, nat>, p: nat, a: int)
    requires Owned(owner, live, p) && a in live
    ensures live[a] > 0 && Owns(owner, Run(a, live[a], p), a)
  {
  }

  lemma RunBefore(chunks: seq<int>, p: nat, a: int, n: nat, s: nat, t: nat)
    requires p > 0 && n > 0 && Spaced(chunks, p) && s + n <= t < |chunks|
    requires chunks[s + (n - 1)] == a + (n - 1) * p
    ensures a + n * p <= chunks[t]
  {
    assert chunks[s + (n - 1)] + p <= chunks[t];
    assert (n - 1) * p + p == n * p;
  }

  /** The bytes of two live allocations do not overlap. */
  lemma LiveApart(chunks: seq<int>, free: seq<int>, owner: map<int, int>, live: map<int, nat>, p: nat, a: int, b: int)
    requires p > 0 && Spaced(chunks, p) && Partition(chunks, free, owner) && Owned(owner, live, p)
    requires a in live && b in live && a < b
    ensures a + live[a] * p <= b
  {
    hide Owned, Run;
    LiveRun(owner, live, p, a);
    LiveRun(owner, live, p, b);
    HeadInRun(b, live[b], p);
    LiveDisjoint(owner, live, p, a, b);
    var s := RunPlace(chunks, p, a, live[a]);
    var t: nat :| t < |chunks| && chunks[t] == b;
    if s <= t < s + live[a] { RunAt(a, live[a], p, t - s); }
    assert chunks[s + 0] == a + 0 * p;
    assert t >= s;
    assert chunks[s + (live[a] - 1)] == a + (live[a] - 1) * p;
    if t >= s + live[a] { RunBefore(chunks, p, a, live[a], s, t); }
  }

  /** A run of chunks never crosses from one block into another: the header is between. */
  lemma {:induction false} RunInOneBlock(blocks: seq<Block>, p: nat, a: int, n: nat) returns (i: nat)
    requires p > 0 && n > 0 && Apart(blocks, p) && forall c | c in Run(a, n, p) :: c in Chunks(blocks, p)
    ensures i < |blocks| && blocks[i].begin <= a && a + n * p <= End(blocks[i], p)
    decreases n
  {
    hide Chunks;
    HeadInRun(a, n, p);
    if n == 1 {
      i := ChunkInBlock(blocks, p, a);
    } else {
      i := RunInOneBlock(blocks, p, a + p, n - 1);
      var k := ChunkInBlock(blocks, p, a);
      assert a + p + (n - 1) * p == a + n * p;
      MulLess(0, n - 1, p);
      Touching(blocks, p, i, k, a + p);
    }
  }

  /** A block that begins where another ends is that other: between two there is a header. */
  lemma Touching(blocks: seq<Block>, p: nat, i: nat, k: nat, a: int)
    requires p > 0 && Apart(blocks, p) && i < |blocks| && k < |blocks|
    requires blocks[i].begin <= a < End(blocks[i], p) && blocks[k].begin < a <= End(blocks[k], p)
    ensures i == k
  {
  }

  /** No word inside an owned chunk is a list cell or a header word. */
  lemma OwnedBytes(blocks: seq<Block>, free: seq<int>, owner: map<int, int>, p: nat, c: int, a: int)
    requires p > 0 && Apart(blocks, p) && Partition(Chunks(blocks, p), free, owner)
    requires c in owner && c <= a < c + p
    ensures a !in free && a != FIRST && NoHeader(blocks, p, a)
  {
    var chunks := Chunks(blocks, p);
    ChunksSpaced(blocks, p);
    var s :| 0 <= s < |chunks| && chunks[s] == c;
    if a in chunks {
      var t :| 0 <= t < |chunks| && chunks[t] == a;
      assert t == s;
    }
    var k := ChunkInBlock(blocks, p, c);
    forall i | 0 <= i < |blocks| ensures a != End(blocks[i], p) && a != End(blocks[i], p) + WORD {
      MulLess(0, blocks[i].n, p);
      assert k < i ==> End(blocks[k], p) + HEADER <= blocks[i].begin;
      assert i < k ==> End(blocks[i], p) + HEADER <= blocks[k].begin;
    }
  }
}
