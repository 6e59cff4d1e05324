/** simple_segregated_storage.hpp: a free list threaded through the free chunks.

    Memory is a map from the addresses of words to words.  The member `first` is the
    word at address `FIRST`, since `malloc_n` walks the list from `&first`. */
module Storage {
  import opened Common

  const FIRST := -1

  /** The addresses a, a+p, ..., a+(n-1)p. */
  function Run(a: int, n: nat, p: nat): (r: seq<int>)
    ensures |r| == n
    decreases n
  {
    if n == 0 then [] else [a] + Run(a + p, n - 1, p)
  }

  lemma {:induction false} RunAt(a: int, n: nat, p: nat, i: nat)
    requires i < n
    ensures Run(a, n, p)[i] == a + i * p
    decreases n
  {
    if i > 0 {
      RunAt(a + p, n - 1, p, i - 1);
      assert i * p == (i - 1) * p + p;
    }
  }

  /** Neighbours are one chunk apart, and no two chunks overlap. */
  ghost predicate Steps(r: seq<int>, p: nat) {
    && (forall i, j | 0 <= i < j < |r| :: r[i] + p <= r[j])
    && (forall i | 1 <= i < |r| :: r[i] - p == r[i - 1])
  }

  lemma MulLess(i: int, j: int, p: nat)
    requires p > 0
    ensures i < j <==> i * p < j * p
    ensures i < j ==> i * p + p <= j * p
  {
    if i < j {
      assert (j - i) * p >= p by { assert (j - i - 1) * p >= 0; }
    } else {
      assert (i - j) * p >= 0;
    }
  }

  function Next(r: seq<int>, j: nat, end: int): int {
    if j + 1 < |r| then r[j + 1] else end
  }

  /** The words at r[i..] form a chain that ends in `end`. */
  ghost predicate Threaded(mem: map<int, int>, r: seq<int>, i: nat, end: int) {
    && (forall j | i <= j < |r| :: r[j] in mem)
    && (forall j {:trigger mem[r[j]]} | i <= j < |r| :: mem[r[j]] == Next(r, j, end))
  }

  ghost predicate Chain(mem: map<int, int>, r: seq<int>, end: int) {
    Threaded(mem, r, 0, end)
  }

  ghost predicate SameOutside(m: map<int, int>, m': map<int, int>, cells: seq<int>) {
    forall c | c !in cells :: (c in m <==> c in m') && (c in m ==> m'[c] == m[c])
  }

  lemma ChainAppend(mem: map<int, int>, a: seq<int>, b: seq<int>, end: int)
    ensures Chain(mem, a + b, end) <==> Chain(mem, a, if b == [] then end else b[0]) && Chain(mem, b, end)
  {
    var mid := if b == [] then end else b[0];
    if Chain(mem, a + b, end) {
      forall j | 0 <= j < |a| ensures a[j] in mem && mem[a[j]] == Next(a, j, mid) {
        assert (a + b)[j] == a[j] && Next(a + b, j, end) == Next(a, j, mid);
      }
      forall j | 0 <= j < |b| ensures b[j] in mem && mem[b[j]] == Next(b, j, end) {
        assert (a + b)[|a| + j] == b[j] && Next(a + b, |a| + j, end) == Next(b, j, end);
      }
    }
    if Chain(mem, a, mid) && Chain(mem, b, end) {
      forall j | 0 <= j < |a + b| ensures (a + b)[j] in mem && mem[(a + b)[j]] == Next(a + b, j, end) {
        if j >= |a| { assert (a + b)[j] == b[j - |a|]; }
      }
    }
  }

  lemma ChainWord(mem: map<int, int>, free: seq<int>, k: nat)
    requires Chain(mem, [FIRST] + free, 0) && k <= |free|
    ensures var c := if k == 0 then FIRST else free[k - 1];
      c in mem && mem[c] == if k < |free| then free[k] else 0
  {
    var cells := [FIRST] + free;
    assert cells[k] == if k == 0 then FIRST else free[k - 1];
    assert mem[cells[k]] == Next(cells, k, 0);
  }

  /** A chain does not notice writes elsewhere. */
  lemma ChainFrame(m: map<int, int>, m': map<int, int>, r: seq<int>, end: int, cells: seq<int>)
    requires Chain(m, r, end) && SameOutside(m, m', cells)
    requires forall j | 0 <= j < |r| :: r[j] !in cells
    ensures Chain(m', r, end)
  {
    forall j | 0 <= j < |r| ensures r[j] in m' && m'[r[j]] == m[r[j]] {
      var c := r[j];
      assert c !in cells;
    }
  }

  /** Positive addresses in ascending order, at least a chunk apart: ordered, no cycle,
      no two chunks overlapping. */
  ghost predicate Spaced(free: seq<int>, p: nat) {
    && (forall i | 0 <= i < |free| :: 0 < free[i])
    && (forall i, j | 0 <= i < j < |free| :: free[i] + p <= free[j])
  }

  lemma SpacedDistinct(free: seq<int>, p: nat)
    requires Spaced(free, p) && p > 0
    ensures NoDup([FIRST] + free)
  {
  }

  ghost function Head(b: seq<int>): int {
    if b == [] then 0 else b[0]
  }

  /** Writing the word at the end of `a` redirects that chain and no other. */
  lemma Redirected(m: map<int, int>, a: seq<int>, end: int, end': int, other: seq<int>, otherEnd: int)
    requires a != [] && NoDup(a + other) && Chain(m, a, end) && Chain(m, other, otherEnd)
    ensures var m' := m[a[|a| - 1] := end']; Chain(m', a, end') && Chain(m', other, otherEnd)
  {
    var m', x := m[a[|a| - 1] := end'], a[|a| - 1];
    forall j | 0 <= j < |a| - 1 ensures m'[a[j]] == m[a[j]] {
      assert (a + other)[j] != (a + other)[|a| - 1];
      var c := a[j];
    }
    forall j | 0 <= j < |other| ensures other[j] in m' && m'[other[j]] == m[other[j]] {
      assert (a + other)[|a| - 1] != (a + other)[|a| + j];
      var c := other[j];
    }
  }

  /** A run threaded to the rest of a chain is linked in behind the cell before it. */
  lemma SpliceIn(m: map<int, int>, m1: map<int, int>, a: seq<int>, r: seq<int>, b: seq<int>)
    requires a != [] && r != [] && NoDup(a + (r + b))
    requires Chain(m, a + b, 0) && Chain(m1, r, Head(b)) && SameOutside(m, m1, r)
    ensures Chain(m1[a[|a| - 1] := r[0]], a + (r + b), 0)
  {
    ChainAppend(m, a, b, 0);
    var all := a + (r + b);
    assert forall j | 0 <= j < |a| :: a[j] == all[j];
    assert forall j | 0 <= j < |r| :: r[j] == all[|a| + j];
    assert forall j | 0 <= j < |b| :: b[j] == all[|a| + |r| + j];
    ChainFrame(m, m1, a, Head(b), r);
    ChainFrame(m, m1, b, 0, r);
    ChainAppend(m1, r, b, 0);
    Redirected(m1, a, Head(b), r[0], r + b, 0);
    ChainAppend(m1[a[|a| - 1] := r[0]], a, r + b, 0);
  }

  /** Linking past a run takes it out of the chain. */
  lemma SpliceOut(m: map<int, int>, a: seq<int>, r: seq<int>, b: seq<int>)
    requires a != [] && NoDup(a + (r + b)) && Chain(m, a + (r + b), 0)
    ensures Chain(m[a[|a| - 1] := Head(b)], a + b, 0)
  {
    var all := a + (r + b);
    assert forall j | 0 <= j < |a| :: a[j] == all[j];
    assert forall j | 0 <= j < |b| :: b[j] == all[|a| + |r| + j];
    ChainAppend(m, a, r + b, 0);
    ChainAppend(m, r, b, 0);
    Redirected(m, a, Head(r + b), Head(b), b, 0);
    ChainAppend(m[a[|a| - 1] := Head(b)], a, b, 0);
  }

  /** No free chunk overlaps the span of a run. */
  ghost predicate Clear(free: seq<int>, r: seq<int>, p: nat) {
    r != [] && forall i | 0 <= i < |free| :: free[i] + p <= r[0] || r[|r| - 1] + p <= free[i]
  }

  lemma SpacedInsert(free: seq<int>, k: nat, r: seq<int>, p: nat)
    requires k <= |free| && p > 0 && Spaced(free, p) && Steps(r, p) && Clear(free, r, p) && 0 < r[0]
    requires k > 0 ==> free[k - 1] <= r[0]
    requires k < |free| ==> free[k] > r[0]
    ensures Spaced(free[..k] + r + free[k..], p)
  {
    var f := free[..k] + r + free[k..];
    forall i | 0 <= i < |f| ensures 0 < f[i] {}
    forall i, j | 0 <= i < j < |f| ensures f[i] + p <= f[j] {
      if i < k && j >= k { assert free[i] <= free[k - 1]; }
      if i < k + |r| && j >= k + |r| { assert free[k] <= free[j - |r|]; }
    }
  }

  /** Linking a threaded run in behind the k-th free chunk. */
  lemma InsertRun(free: seq<int>, k: nat, r: seq<int>, p: nat, m: map<int, int>, m1: map<int, int>)
    requires k <= |free| && p > 0 && r != [] && Spaced(free[..k] + r + free[k..], p)
    requires Chain(m, [FIRST] + free, 0)
    requires Chain(m1, r, Head(free[k..])) && SameOutside(m, m1, r)
    ensures var m2 := m1[([FIRST] + free)[k] := r[0]];
      Chain(m2, [FIRST] + (free[..k] + r + free[k..]), 0) && SameOutside(m, m2, [FIRST] + free + r)
  {
    var a, b := [FIRST] + free[..k], free[k..];
    assert [FIRST] + free == a + b;
    SpacedDistinct(free[..k] + r + free[k..], p);
    assert [FIRST] + (free[..k] + r + free[k..]) == a + (r + b);
    SpliceIn(m, m1, a, r, b);
    OutsideMore(m, m1, r, [FIRST] + free, k, r[0]);
  }

  lemma ThreadOne(m: map<int, int>, chunk: int, end: int)
    ensures Chain(m[chunk := end], [chunk], end) && SameOutside(m, m[chunk := end], [chunk])
  {
    assert chunk in [chunk];
  }

  lemma OutsideMore(m: map<int, int>, m1: map<int, int>, r: seq<int>, cells: seq<int>, k: nat, v: int)
    requires k < |cells| && SameOutside(m, m1, r)
    ensures SameOutside(m, m1[cells[k] := v], cells + r)
  {
    var x := cells[k];
    assert x in cells;
  }

  /** n free chunks in a row start at `a`. */
  ghost predicate Fits(free: seq<int>, p: nat, n: nat, a: int) {
    forall c | c in Run(a, n, p) :: c in free
  }

  /** In a spaced list the chunks of a run stand side by side. */
  lemma {:induction false} FitIsContiguous(free: seq<int>, p: nat, n: nat, i: nat, j: nat)
    requires p > 0 && Spaced(free, p) && i < |free| && j < n && Fits(free, p, n, free[i])
    ensures i + j < |free| && free[i + j] == free[i] + j * p
    decreases j
  {
    if j > 0 {
      FitIsContiguous(free, p, n, i, j - 1);
      RunAt(free[i], n, p, j);
      assert Run(free[i], n, p)[j] in free;
      var t :| 0 <= t < |free| && free[t] == free[i] + j * p;
      assert free[t] == free[i + j - 1] + p by { assert j * p == (j - 1) * p + p; }
      assert t > i + j - 1;
    }
  }

  ghost predicate Adjacent(free: seq<int>, p: nat, j: int) {
    0 < j < |free| && free[j] == free[j - 1] + p
  }

  /** n neighbours of the list, from the i-th on, are neighbours in memory. */
  ghost predicate Contiguous(free: seq<int>, p: nat, i: nat, n: nat) {
    i + n <= |free| && forall j | i < j < i + n :: Adjacent(free, p, j)
  }

  lemma {:induction false} ContiguousIsRun(free: seq<int>, p: nat, i: nat, n: nat)
    requires Contiguous(free, p, i, n)
    ensures n > 0 ==> free[i..i + n] == Run(free[i], n, p)
    decreases n
  {
    if n > 0 {
      assert n > 1 ==> Adjacent(free, p, i + 1);
      ContiguousIsRun(free, p, i + 1, n - 1);
      assert free[i..i + n] == [free[i]] + free[i + 1..i + 1 + (n - 1)];
    }
  }

  /** In a spaced list a run of free chunks is a stretch of the list. */
  lemma FitsIffContiguous(free: seq<int>, p: nat, i: nat, n: nat)
    requires p > 0 && n > 0 && Spaced(free, p) && i < |free|
    ensures Fits(free, p, n, free[i]) <==> Contiguous(free, p, i, n)
  {
    if Fits(free, p, n, free[i]) {
      forall j | i < j < i + n ensures Adjacent(free, p, j) {
        FitIsContiguous(free, p, n, i, j - i);
        FitIsContiguous(free, p, n, i, j - i - 1);
        assert (j - i) * p == (j - i - 1) * p + p;
      }
      FitIsContiguous(free, p, n, i, n - 1);
    }
    if Contiguous(free, p, i, n) {
      ContiguousIsRun(free, p, i, n);
      forall c | c in Run(free[i], n, p) ensures c in free {
        var j :| 0 <= j < n && free[i..i + n][j] == c;
        assert free[i + j] == c;
      }
    }
  }

  /** If the list has no stretch of n before its s-th chunk, no run of n lies below it. */
  lemma NoFit(free: seq<int>, p: nat, n: nat, s: nat)
    requires p > 0 && n > 0 && Spaced(free, p) && s <= |free|
    requires forall i | 0 <= i < s :: !Contiguous(free, p, i, n)
    ensures forall a | Fits(free, p, n, a) :: s < |free| && free[s] <= a
  {
    forall a | Fits(free, p, n, a) ensures s < |free| && free[s] <= a {
      assert Run(a, n, p)[0] in free;
      var i :| 0 <= i < |free| && free[i] == a;
      FitsIffContiguous(free, p, i, n);
    }
  }

  /** Linking past n neighbours takes them out of the list. */
  lemma TakeRun(mem: map<int, int>, free: seq<int>, p: nat, s: nat, n: nat)
    requires p > 0 && Spaced(free, p) && Chain(mem, [FIRST] + free, 0) && s + n <= |free|
    ensures var rest, cells := free[..s] + free[s + n..], [FIRST] + free;
      var m' := mem[cells[s] := Head(free[s + n..])];
      Chain(m', [FIRST] + rest, 0) && Spaced(rest, p) && SameOutside(mem, m', cells)
  {
    hide Chain, Spaced, SameOutside, NoDup;
    var cells, rest, v := [FIRST] + free, free[..s] + free[s + n..], Head(free[s + n..]);
    assert Chain(mem[cells[s] := v], [FIRST] + rest, 0) by {
      SpacedDistinct(free, p);
      Unlinked(mem, cells, s + 1, n);
      assert cells[..s + 1] + cells[s + 1 + n..] == [FIRST] + rest;
      assert cells[s + 1 + n..] == free[s + n..];
    }
    assert Spaced(rest, p) by { SpacedTake(free, p, s, n); }
    assert SameOutside(mem, mem[cells[s] := v], cells) by {
      OutsideMore(mem, mem, [], cells, s, v);
      assert cells + [] == cells;
    }
  }

  lemma SpacedTake(free: seq<int>, p: nat, s: nat, n: nat)
    requires Spaced(free, p) && s + n <= |free|
    ensures Spaced(free[..s] + free[s + n..], p)
  {
    var rest := free[..s] + free[s + n..];
    assert forall i | 0 <= i < |rest| :: rest[i] == free[if i < s then i else i + n];
  }

  lemma Unlinked(mem: map<int, int>, cells: seq<int>, k: nat, n: nat)
    requires 0 < k && k + n <= |cells| && NoDup(cells) && Chain(mem, cells, 0)
    ensures Chain(mem[cells[k - 1] := Head(cells[k + n..])], cells[..k] + cells[k + n..], 0)
  {
    assert cells == cells[..k] + (cells[k..k + n] + cells[k + n..]);
    SpliceOut(mem, cells[..k], cells[k..k + n], cells[k + n..]);
  }

  class Store {
    const p: nat             // partition_size
    var mem: map<int, int>
    ghost var free: seq<int> // the free list

    ghost function Cells(): seq<int>
      reads this
    {
      [FIRST] + free
    }

    ghost predicate Valid()
      reads this
    {
      p > 0 && Spaced(free, p) && Chain(mem, Cells(), 0)
    }

    constructor (p: nat)
      requires p > 0
      ensures Valid() && free == [] && this.p == p && mem == map[FIRST := 0]
    {
      this.p := p;
      mem, free := map[FIRST := 0], [];
    }

    /** What a list word holds. */
    lemma WordAt(k: nat)
      requires Valid() && k <= |free|
      ensures var c := if k == 0 then FIRST else free[k - 1];
        c in mem && mem[c] == if k < |free| then free[k] else 0
    {
      ChainWord(mem, free, k);
    }

    /** The last free chunk not above `ptr`, or 0; `k` free chunks are not above it. */
    method FindPrev(ptr: int) returns (loc: int, ghost k: nat)
      requires Valid()
      ensures k <= |free| && loc == (if k == 0 then 0 else free[k - 1]) && (loc == 0 <==> k == 0)
      ensures k > 0 ==> free[k - 1] <= ptr
      ensures k < |free| ==> free[k] > ptr
    {
      WordAt(0);
      if mem[FIRST] == 0 || mem[FIRST] > ptr { return 0, 0; }
      var iter := mem[FIRST];
      k := 1;
      WordAt(1);
      while mem[iter] != 0 && mem[iter] <= ptr
        invariant 1 <= k <= |free| && iter == free[k - 1] && iter <= ptr && iter in mem
        invariant mem[iter] == if k < |free| then free[k] else 0
        decreases |free| - k
      {
        iter := mem[iter];
        k := k + 1;
        WordAt(k);
      }
      loc := iter;
    }

    /** Threads a list through the chunks of `block`, back to front; any bytes left over
        at the end of the block are not used. */
    method Segregate(block: int, sz: nat, end: int) returns (head: int)
      requires p > 0 && p <= sz && 0 < block
      modifies `mem
      ensures head == block && sz / p >= 1
      ensures Threaded(mem, Run(block, sz / p, p), 0, end)
      ensures SameOutside(old(mem), mem, Run(block, sz / p, p))
    {
      ghost var n := sz / p;
      LastChunk(sz, p);
      RunSteps(block, n, p);
      RunAt(block, n, p, 0);
      RunAt(block, n, p, n - 1);
      head := ThreadBack(block, block + (sz - p) / p * p, end, Run(block, n, p));
    }

    method AddOrderedBlock(block: int, sz: nat) returns (ghost k: nat)
      requires Valid() && p <= sz && 0 < block
      requires Clear(free, Run(block, sz / p, p), p)
      modifies `mem, `free
      ensures Valid() && k <= |old(free)|
      ensures free == old(free)[..k] + Run(block, sz / p, p) + old(free)[k..]
      ensures SameOutside(old(mem), mem, old(Cells()) + Run(block, sz / p, p))
    {
      hide Clear, Chain, Spaced, Steps, Run, SameOutside;
      var loc;
      loc, k := FindPrev(block);
      Fitting(k, block, sz / p);
      if loc == 0 {
        ThreadAt(FIRST, block, sz, k);
      } else {
        ThreadAt(loc, block, sz, k);
      }
    }

    /** The list stays ordered when a block goes to its place. */
    lemma Fitting(k: nat, block: int, n: nat)
      requires Valid() && 0 < block && k <= |free| && Clear(free, Run(block, n, p), p)
      requires (k > 0 ==> free[k - 1] <= block) && (k < |free| ==> free[k] > block)
      ensures Spaced(free[..k] + Run(block, n, p) + free[k..], p)
    {
      RunSteps(block, n, p);
      RunAt(block, n, p, 0);
      SpacedInsert(free, k, Run(block, n, p), p);
    }

    /** The cell behind the first k free chunks gets the block, threaded into the rest. */
    method ThreadAt(cell: int, block: int, sz: nat, ghost k: nat)
      requires Valid() && p <= sz && 0 < block && k <= |free| && cell == Cells()[k]
      requires Spaced(free[..k] + Run(block, sz / p, p) + free[k..], p)
      modifies `mem, `free
      ensures Valid() && free == old(free)[..k] + Run(block, sz / p, p) + old(free)[k..]
      ensures SameOutside(old(mem), mem, old(Cells()) + Run(block, sz / p, p))
    {
      hide Chain, Spaced, SameOutside;
      WordAt(k);
      ghost var r := Run(block, sz / p, p);
      var head := Segregate(block, sz, mem[cell]);
      ghost var m1 := mem;
      mem := mem[cell := head];
      InsertRun(free, k, r, p, old(mem), m1);
      free := free[..k] + r + free[k..];
    }

    method Malloc() returns (ret: int)
      requires Valid() && free != []
      modifies `mem, `free
      ensures Valid() && ret == old(free)[0] && free == old(free)[1..]
      ensures SameOutside(old(mem), mem, old(Cells()))
    {
      WordAt(0);
      WordAt(1);
      TakeRun(mem, free, p, 0, 1);
      assert free[..0] + free[1..] == free[1..];
      ret := mem[FIRST];
      mem := mem[FIRST := mem[ret]];
      free := free[1..];
    }

    method OrderedFree(chunk: int) returns (ghost k: nat)
      requires Valid() && 0 < chunk && Clear(free, [chunk], p)
      modifies `mem, `free
      ensures Valid() && k <= |old(free)| && free == old(free)[..k] + [chunk] + old(free)[k..]
      ensures SameOutside(old(mem), mem, old(Cells()) + [chunk])
    {
      hide Clear, Spaced;
      var loc;
      loc, k := FindPrev(chunk);
      WordAt(k);
      SpacedInsert(free, k, [chunk], p);
      ghost var end := Head(free[k..]);
      ThreadOne(mem, chunk, end);
      InsertRun(free, k, [chunk], p, mem, mem[chunk := end]);
      if loc == 0 {
        mem := mem[chunk := mem[FIRST]];
        mem := mem[FIRST := chunk];
      } else {
        mem := mem[chunk := mem[loc]];
        mem := mem[loc := chunk];
      }
      free := free[..k] + [chunk] + free[k..];
    }

    /** Looks for n chunks in a row behind `start`, the cell before the s-th free chunk.
        On failure `start` becomes the t-th free chunk, the last one before the gap. */
    method TryMallocN(start: int, n: nat, ghost s: nat) returns (iter: int, start': int, ghost t: nat)
      requires Valid() && n > 0 && s < |free| && start == Cells()[s]
      ensures iter != 0 ==> Contiguous(free, p, s, n) && iter == free[s + n - 1] && start' == start
      ensures iter == 0 ==> s <= t < |free| && t < s + n - 1 && start' == free[t]
      ensures iter == 0 ==> !Adjacent(free, p, t + 1)
    {
      hide Chain;
      WordAt(s);
      iter := mem[start];
      t := s;
      var left := n - 1;
      while left != 0
        invariant left <= n - 1 && s <= t < |free| && t - s == n - 1 - left
        invariant Contiguous(free, p, s, t - s + 1) && iter == free[t]
      {
        WordAt(t + 1);
        var next := mem[iter];
        assert next == iter + p <==> Adjacent(free, p, t + 1);
        if next != iter + p { return 0, iter, t; }
        iter := next;
        t := t + 1;
        left := left - 1;
      }
      start' := start;
    }

    /** The search of `malloc_n`: the cell before the lowest run of n, and the last chunk
        of that run; `iter` is 0 if there is none. */
    method FindRun(n: nat) returns (start: int, iter: int, ghost s: nat)
      requires Valid() && n > 0
      ensures s <= |free| && start == Cells()[s]
      ensures iter == 0 ==> s == |free|
      ensures iter != 0 ==> s + n <= |free| && Contiguous(free, p, s, n) && iter == free[s + n - 1]
      ensures forall i | 0 <= i < s :: !Contiguous(free, p, i, n)
      ensures iter == 0 <==> forall i | 0 <= i < |free| :: !Contiguous(free, p, i, n)
    {
      hide Chain;
      s := 0;
      start, iter := FIRST, 0;
      while iter == 0
        invariant s <= |free| && start == Cells()[s]
        invariant forall i | 0 <= i < s :: !Contiguous(free, p, i, n)
        invariant iter != 0 ==> Contiguous(free, p, s, n) && iter == free[s + n - 1]
        decreases iter == 0, |free| - s
      {
        WordAt(s);
        if mem[start] == 0 { return; }
        ghost var t;
        iter, start, t := TryMallocN(start, n, s);
        if iter == 0 {
          forall i | s <= i <= t ensures !Contiguous(free, p, i, n) {
            assert !Adjacent(free, p, t + 1);
          }
          s := t + 1;
        }
      }
    }

    /** The lowest n free chunks in a row are taken; 0 if there are none. */
    method MallocN(n: nat) returns (ret: int, ghost s: nat)
      requires Valid()
      modifies `mem, `free
      ensures Valid() && (n == 0 ==> ret == 0)
      ensures ret == 0 ==> free == old(free) && mem == old(mem)
      ensures n > 0 ==> (ret == 0 <==> forall a :: !Fits(old(free), p, n, a))
      ensures ret != 0 ==> Fits(old(free), p, n, ret) && forall a | Fits(old(free), p, n, a) :: ret <= a
      ensures ret != 0 ==> s + n <= |old(free)| && old(free)[s..s + n] == Run(ret, n, p)
      ensures ret != 0 ==> free == old(free)[..s] + old(free)[s + n..]
      ensures SameOutside(old(mem), mem, old(Cells()))
    {
      hide Contiguous, Chain;
      if n == 0 { return 0, 0; }
      var start, iter;
      start, iter, s := FindRun(n);
      NoFit(free, p, n, s);
      if iter == 0 { return 0, s; }
      FitsIffContiguous(free, p, s, n);
      ContiguousIsRun(free, p, s, n);
      ret := Unlink(start, iter, s, n);
    }

    method Unlink(start: int, iter: int, ghost s: nat, ghost n: nat) returns (ret: int)
      requires Valid() && n > 0 && s + n <= |free| && start == Cells()[s] && iter == free[s + n - 1]
      modifies `mem, `free
      ensures Valid() && ret == old(free)[s] && free == old(free)[..s] + old(free)[s + n..]
      ensures SameOutside(old(mem), mem, old(Cells()))
    {
      assert start in mem && mem[start] == free[s] by { WordAt(s); }
      assert iter in mem && mem[iter] == Head(free[s + n..]) by { WordAt(s + n); }
      TakeRun(mem, free, p, s, n);
      ret := mem[start];
      mem := mem[start := mem[iter]];
      free := free[..s] + free[s + n..];
    }

    method ThreadBack(block: int, last: int, end: int, ghost r: seq<int>) returns (head: int)
      requires Steps(r, p) && p > 0 && r != [] && block == r[0] && last == r[|r| - 1]
      modifies `mem
      ensures head == block && Threaded(mem, r, 0, end) && SameOutside(old(mem), mem, r)
    {
      var next := last;
      mem := mem[next := end];
      if next == block { return block; }
      ghost var i := |r| - 1;
      var iter := next - p;
      while iter != block
        invariant 1 <= i < |r| && next == r[i] && iter == r[i - 1]
        invariant Threaded(mem, r, i, end) && SameOutside(old(mem), mem, r)
        decreases i
      {
        ThreadMore(mem, r, i, end, p);
        mem := mem[iter := next];
        next := iter;
        iter := iter - p;
        i := i - 1;
      }
      ThreadMore(mem, r, i, end, p);
      mem := mem[block := next];
      head := block;
    }
  }

  lemma ThreadMore(mem: map<int, int>, r: seq<int>, i: nat, end: int, p: nat)
    requires Steps(r, p) && p > 0 && 1 <= i < |r| && Threaded(mem, r, i, end)
    ensures Threaded(mem[r[i - 1] := r[i]], r, i - 1, end)
    ensures SameOutside(mem, mem[r[i - 1] := r[i]], r)
  {
    var x := r[i - 1];
    assert x in r;
  }

  lemma LastChunk(sz: nat, p: nat)
    requires 0 < p <= sz
    ensures sz / p >= 1 && (sz - p) / p == sz / p - 1
  {
    var q, r := sz / p, sz % p;
    assert sz == q * p + r;
    MulLess(0, q, p);
    DivUnique(sz - p, q - 1, r, p);
  }

  lemma DivUnique(x: nat, q: int, r: nat, p: nat)
    requires p > 0 && x == q * p + r && r < p
    ensures x / p == q
  {
    var q' := x / p;
    assert x == q' * p + x % p;
    MulLess(q, q', p);
    MulLess(q', q, p);
  }

  lemma RunSteps(a: int, n: nat, p: nat)
    requires p > 0
    ensures Steps(Run(a, n, p), p)
  {
    var r := Run(a, n, p);
    forall i, j | 0 <= i < j < n ensures r[i] + p <= r[j] {
      MulLess(i, j, p);
      RunAt(a, n, p, i);
      RunAt(a, n, p, j);
    }
    forall i | 1 <= i < n ensures r[i] - p == r[i - 1] {
      RunAt(a, n, p, i);
      RunAt(a, n, p, i - 1);
      assert i * p == (i - 1) * p + p;
    }
  }
}
