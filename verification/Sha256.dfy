/** sha2.cpp: buffering and padding of SHA-256 around its compression function. */
module Sha256 {
  import opened Common
  import opened ByteOrder

  const BLOCK: nat := 64

  // ------------------------------------------------------------------ whole blocks

  /** The compression function folded over the blocks of b. */
  ghost function Folded<H>(compress: (H, Bytes) -> H, init: H, b: Bytes): H
    decreases |b|
  {
    if |b| < BLOCK then init
    else compress(Folded(compress, init, b[..|b| - BLOCK]), b[|b| - BLOCK..])
  }

  lemma FoldedMore<H>(compress: (H, Bytes) -> H, init: H, b: Bytes, block: Bytes)
    requires |block| == BLOCK
    ensures Folded(compress, init, b + block) == compress(Folded(compress, init, b), block)
  {
    var t := b + block;
    assert t[..|t| - BLOCK] == b && t[|t| - BLOCK..] == block;
  }

  /** The message as section 5.1.1 of FIPS 180-4 pads it: one 1 bit, zeros, and the length in
      bits as a 64-bit big-endian number. */
  ghost function Padded(m: Bytes): Bytes {
    m + [0x80] + Zeros((119 - |m| % 64) % 64) + BigEndian(Wrap64(8 * |m|), 8)
  }

  /** The padding fills whole blocks and is the shortest that does. */
  lemma PaddedLength(m: Bytes)
    ensures |Padded(m)| % BLOCK == 0 && |m| + 9 <= |Padded(m)| < |m| + 9 + BLOCK
  {
    ZerosCount(|m|);
  }

  /** What stands where: the message, one 1 bit and zeros, and the bit count in the last eight bytes, high
      byte first. */
  lemma PaddedBytes(m: Bytes)
    ensures var p := Padded(m);
      && |p| >= |m| + 9 && p[..|m|] == m && p[|m|] == 0x80 && (forall i | |m| < i < |p| - 8 :: p[i] == 0)
      && HighFirst(p, |p| - 8) * 0x1_0000_0000 + HighFirst(p, |p| - 4) == Wrap64(8 * |m|)
  {
    hide BigEndian, Wrap64, HighFirst;
    var p, size := Padded(m), BigEndian(Wrap64(8 * |m|), 8);
    Powers();
    NumberOfBytes(Wrap64(8 * |m|), 8);
    EightBytes(size);
    assert p[|p| - 8..] == size;
    SameHighFirst(p, |p| - 8, size, 0);
    SameHighFirst(p, |p| - 4, size, 4);
  }

  /** Two messages of less than 2^61 bytes never look the same when they are padded. */
  lemma PaddedInjective(m: Bytes, n: Bytes)
    requires |m| < 0x2000_0000_0000_0000 && |n| < 0x2000_0000_0000_0000 && Padded(m) == Padded(n)
    ensures m == n
  {
    hide Padded, Wrap64;
    PaddedBytes(m);
    PaddedBytes(n);
    Wrapped64(8 * |m|, 8 * |m|, 0);
    Wrapped64(8 * |n|, 8 * |n|, 0);
  }

  lemma Extend(m: Bytes, data: Bytes, a: nat, b: nat)
    requires a <= b <= |data|
    ensures m + data[..a] + data[a..b] == m + data[..b]
    ensures m + data[..0] == m && m + data[..|data|] == m + data
  {
  }

  // ----------------------------------------------------- the buffer and its two views

  /** Where the byte at address p of a word buffer stands in the value of its word, high byte
      first, on a little-endian host. */
  function Flip(p: nat): (q: nat)
    ensures q / 4 == p / 4 && p % 4 + q % 4 == 3
  {
    p - p % 4 + (3 - p % 4)
  }

  lemma FlipTwice(p: nat)
    ensures Flip(Flip(p)) == p
  {
  }

  class Context<H> {
    const compress: (H, Bytes) -> H
    const init: H
    var count0: word
    var count1: word
    var hash: H
    const wbuf: array<byte>
    ghost var message: Bytes

    /** The whole blocks of t have been compressed, the rest of t waits in the buffer. */
    ghost predicate Fed(t: Bytes)
      reads `hash, wbuf
    {
      && wbuf.Length == BLOCK && hash == Folded(compress, init, t[..Start(|t|)])
      && wbuf[..|t| % BLOCK] == t[Start(|t|)..]
    }

    ghost predicate Valid()
      reads this, wbuf
    {
      Wide(count0, count1) == Wrap64(|message|) && Fed(message)
    }

    /** `sha256_begin` */
    constructor (compress: (H, Bytes) -> H, init: H)
      ensures Valid() && message == [] && this.compress == compress && this.init == init && fresh(wbuf)
    {
      this.compress, this.init, hash := compress, init, init;
      count0, count1, message := 0, 0, [];
      wbuf := new byte[64];
      new;
      Begun();
    }

    lemma Begun()
      requires wbuf.Length == BLOCK && hash == init && count0 == count1 == 0 && message == []
      ensures Valid()
    {
      assert message[..0] == [] && wbuf[..0] == [];
    }

    /** The values of the words, high bytes first. */
    ghost function Values(): (v: Bytes)
      requires wbuf.Length == BLOCK
      reads wbuf
      ensures |v| == BLOCK
    {
      seq(BLOCK, p requires 0 <= p < BLOCK reads wbuf => wbuf[Flip(p)])
    }

    /** `memcpy` into the buffer. */
    method Copy(pos: nat, b: Bytes)
      requires wbuf.Length == BLOCK && pos + |b| <= BLOCK
      modifies wbuf
      ensures wbuf[..] == old(wbuf[..pos]) + b + old(wbuf[pos + |b|..])
    {
      for i := 0 to |b|
        invariant forall p | 0 <= p < BLOCK :: wbuf[p] == if pos <= p < pos + i then b[p - pos] else old(wbuf[p])
      {
        wbuf[pos + i] := b[i];
      }
    }

    /** `bsw_32`: the first n words are turned from byte order to word order. */
    method Swap(n: nat)
      requires wbuf.Length == BLOCK && n <= 16
      modifies wbuf
      ensures forall p | 0 <= p < 4 * n :: wbuf[p] == old(wbuf[Flip(p)])
      ensures forall p | 4 * n <= p < BLOCK :: wbuf[p] == old(wbuf[p])
    {
      var i := n;
      while i > 0
        invariant 0 <= i <= n
        invariant forall p | 4 * i <= p < 4 * n :: wbuf[p] == old(wbuf[Flip(p)])
        invariant forall p | 0 <= p < BLOCK && !(4 * i <= p < 4 * n) :: wbuf[p] == old(wbuf[p])
      {
        i := i - 1;
        var k := 4 * i;
        wbuf[k], wbuf[k + 1], wbuf[k + 2], wbuf[k + 3] := wbuf[k + 3], wbuf[k + 2], wbuf[k + 1], wbuf[k];
      }
    }

    /** `sha256_compile`: the hash takes in the words; its schedule leaves anything in the buffer. */
    method Compile()
      requires wbuf.Length == BLOCK
      modifies `hash, wbuf
      ensures hash == compress(old(hash), old(Values()))
    {
      var b: Bytes := seq(BLOCK, p requires 0 <= p < BLOCK reads wbuf => wbuf[Flip(p)]);
      hash := compress(hash, b);
      for i := 0 to BLOCK
        modifies wbuf
      {
        wbuf[i] := *;
      }
    }

    /** A full buffer in byte order is compressed. */
    method CompressBuffer()
      requires wbuf.Length == BLOCK
      modifies `hash, wbuf
      ensures hash == compress(old(hash), old(wbuf[..]))
    {
      ghost var b := wbuf[..];
      Swap(16);
      forall p | 0 <= p < BLOCK ensures wbuf[Flip(p)] == b[p] {
        FlipTwice(p);
      }
      assert Values() == b;
      Compile();
    }

    /** One round of the loop of `sha256_hash`: the buffer is filled up and compressed. */
    method Fill(pos: nat, b: Bytes, ghost t: Bytes)
      requires Fed(t) && pos == |t| % BLOCK && |b| == BLOCK - pos
      modifies `hash, wbuf
      ensures Fed(t + b) && |t + b| % BLOCK == 0
    {
      hide Folded;
      StartNext(|t|, |b|);
      Copy(pos, b);
      ghost var block := wbuf[..];
      assert t + b == t[..Start(|t|)] + block;
      CompressBuffer();
      FoldedMore(compress, init, t[..Start(|t|)], block);
      assert (t + b)[..Start(|t + b|)] == t + b;
    }

    method Keep(pos: nat, b: Bytes, ghost t: Bytes)
      requires Fed(t) && pos == |t| % BLOCK && |b| < BLOCK - pos
      modifies wbuf
      ensures Fed(t + b)
    {
      hide Folded;
      StartNext(|t|, |b|);
      Copy(pos, b);
      assert (t + b)[..Start(|t|)] == t[..Start(|t|)] && (t + b)[Start(|t|)..] == t[Start(|t|)..] + b;
    }

    /** `sha256_hash`.  The length of one call is an unsigned long; the count takes it in right exactly
        if at most one carry goes into the high word. */
    method Hash(data: Bytes)
      requires Valid() && |data| < 0x1_0000_0000_0000_0000
      modifies this, wbuf
      ensures message == old(message) + data && Fed(message)
      ensures Valid() <==> old(count0) + |data| < 0x2_0000_0000
    {
      hide Context.Fed;
      PosOf(count0, count1, |message|);
      ghost var m, t := message, message;
      var pos := count0 % 64;
      var space := BLOCK - pos;
      CountUp(|data|, |message|);
      var sp := 0;
      Extend(m, data, 0, 0);
      while |data| - sp >= space
        invariant 0 <= sp <= |data| && pos < BLOCK && space == BLOCK - pos
        invariant t == m + data[..sp] && Fed(t) && pos == |t| % BLOCK
        modifies `hash, wbuf
      {
        var piece := data[sp..sp + space];
        Fill(pos, piece, t);
        Extend(m, data, sp, sp + space);
        t := t + piece;
        sp := sp + space;
        space := BLOCK;
        pos := 0;
      }
      Extend(m, data, sp, |data|);
      Keep(pos, data[sp..|data|], t);
      message := m + data;
    }

    /** The byte count, in two words; n is what it counts. */
    method CountUp(len: nat, ghost n: nat)
      requires Wide(count0, count1) == Wrap64(n) && len < 0x1_0000_0000_0000_0000
      modifies `count0, `count1
      ensures Wide(count0, count1) == Wrap64(n + len) <==> old(count0) + len < 0x2_0000_0000
    {
      CountUpIff(count0, count1, len, n);
      count0 := Wrap32(count0 + len);
      if count0 < len { count1 := Wrap32(count1 + 1); }
    }

    /** The word that holds byte i keeps the bytes before i and gets the padding byte, by the two
        tables of masks. */
    method MaskWord(i: nat)
      requires wbuf.Length == BLOCK && i < BLOCK
      modifies wbuf
      ensures var w := i - i % 4; Values() == old(Values())[..i] + [0x80] + Zeros(3 - i % 4) + old(Values())[w + 4..]
    {
      hide Context.Values, And, Or, BigEndian, WordAt;
      var w, r := i - i % 4, i % 4;
      var u := WordAt(wbuf[..], w);
      ghost var was := Values();
      ghost var v := KeptBytes(w, r);
      Masked(v, u, r);
      SetWord(i / 4, BigEndian(Or(And(u, M1[r]), B1[r]), 4));
      Spliced(was, w, i, [0x80], Zeros(3 - r));
    }

    /** The bytes of the word at w, high byte first; r of them are kept. */
    lemma KeptBytes(w: nat, r: nat) returns (v: Bytes)
      requires wbuf.Length == BLOCK && w % 4 == 0 && w < BLOCK && r < 4
      ensures |v| == 4 && v[..r] == Values()[w..w + r]
      ensures WordAt(wbuf[..], w) == ((v[0] as int * 0x100 + v[1] as int) * 0x100 + v[2] as int) * 0x100 + v[3] as int
    {
      v := [wbuf[w + 3], wbuf[w + 2], wbuf[w + 1], wbuf[w]];
      forall j | 0 <= j < r ensures v[j] == Values()[w + j] {
        assert Flip(w + j) == w + 3 - j;
      }
    }

    /** Writes the word k, given by its four bytes, high byte first. */
    method SetWord(k: nat, v: Bytes)
      requires wbuf.Length == BLOCK && k < 16 && |v| == 4
      modifies wbuf
      ensures Values() == old(Values())[..4 * k] + v + old(Values())[4 * k + 4..]
    {
      ghost var was := Values();
      wbuf[4 * k], wbuf[4 * k + 1], wbuf[4 * k + 2], wbuf[4 * k + 3] := v[3], v[2], v[1], v[0];
      forall p | 0 <= p < BLOCK ensures Values()[p] == if p / 4 == k then v[p - 4 * k] else was[p] {
        FlipTwice(p);
      }
    }

    /** The bytes of the message in the buffer, a 1 bit, and zeros up to the end of its word. */
    method PadTail(i: nat)
      requires wbuf.Length == BLOCK && i < BLOCK
      modifies wbuf
      ensures Values()[..i - i % 4 + 4] == old(wbuf[..i]) + [0x80] + Zeros(3 - i % 4)
    {
      ghost var tail := wbuf[..i];
      Swap((i + 3) / 4);
      forall p | 0 <= p < i ensures Values()[p] == tail[p] {
        FlipTwice(p);
      }
      ghost var v := Values();
      assert v[..i] == tail;
      MaskWord(i);
      Front(tail, [0x80], Zeros(3 - i % 4), v[i - i % 4 + 4..]);
    }

    /** Zero words up to the length. */
    method ZeroWords(k: nat)
      requires wbuf.Length == BLOCK && k <= 14
      modifies wbuf
      ensures Values()[..56] == old(Values())[..4 * k] + Zeros(56 - 4 * k)
    {
      var i := k;
      ghost var was := Values();
      while i < 14
        invariant k <= i <= 14 && Values()[..4 * i] == was[..4 * k] + Zeros(4 * i - 4 * k)
      {
        ghost var v := Values();
        SetWord(i, [0, 0, 0, 0]);
        assert Values()[..4 * i + 4] == v[..4 * i] + [0, 0, 0, 0];
        i := i + 1;
      }
    }

    /** The padded tail fills a block of its own when the length does not fit behind it. */
    method FlushTail(i: nat)
      requires wbuf.Length == BLOCK && BLOCK - 9 < i < BLOCK
      requires |Values()| == BLOCK
      modifies `hash, wbuf
      ensures forall tail: Bytes | |tail| == i && old(Values())[..i - i % 4 + 4] == tail + [0x80] + Zeros(3 - i % 4) ::
        hash == compress(old(hash), tail + [0x80] + Zeros(63 - i))
    {
      ghost var v := Values();
      if i < 60 { SetWord(15, [0, 0, 0, 0]); }
      forall tail: Bytes | |tail| == i && v[..i - i % 4 + 4] == tail + [0x80] + Zeros(3 - i % 4)
        ensures Values() == tail + [0x80] + Zeros(63 - i)
      {
      }
      Compile();
    }

    /** The length goes into the last two words. */
    method LastBlock(k: nat)
      requires wbuf.Length == BLOCK && k <= 14
      modifies `hash, wbuf
      ensures var size := BigEndian(Wrap64(Wide(count0, count1) * 8), 8);
        hash == compress(old(hash), if k == 0 then Zeros(56) + size else old(Values())[..4 * k] + Zeros(56 - 4 * k) + size)
    {
      hide BigEndian, Context.Values;
      ghost var was := Values();
      ZeroWords(k);
      ghost var v := Values();
      SetWord(14, BigEndian(Wrap32(count1 * 8) + count0 / 0x2000_0000, 4));
      SetWord(15, BigEndian(Wrap32(count0 * 8), 4));
      LengthBytes(count0, count1);
      TwoWords(v, BigEndian(Wrap32(count1 * 8) + count0 / 0x2000_0000, 4), BigEndian(Wrap32(count0 * 8), 4));
      if k == 0 { assert was[..0] + Zeros(56) == Zeros(56); }
      Compile();
    }

    /** `sha256_end` up to the extraction of the digest from the hash. */
    method End()
      requires Valid()
      modifies `hash, wbuf
      ensures hash == Folded(compress, init, Padded(message))
    {
      hide Folded, Padded, BigEndian, Context.Values;
      ghost var m, tail := message, message[Start(|message|)..];
      ghost var whole, size := m[..Start(|m|)], BigEndian(Wrap64(Wide(count0, count1) * 8), 8);
      PosOf(count0, count1, |m|);
      TwoWays(m, tail, size);
      var i := count0 % 64;
      PadTail(i);
      if i > BLOCK - 9 {
        FlushTail(i);
        ghost var block := tail + [0x80] + Zeros(63 - i);
        FoldedMore(compress, init, whole, block);
        LastBlock(0);
        FoldedMore(compress, init, whole + block, Zeros(56) + size);
      } else {
        MoreZeros(tail, i, size);
        LastBlock(i / 4 + 1);
        FoldedMore(compress, init, whole, tail + [0x80] + Zeros(55 - i) + size);
      }
    }
  }

  lemma Front(a: Bytes, x: Bytes, z: Bytes, rest: Bytes)
    ensures (a + x + z + rest)[..|a| + |x| + |z|] == a + x + z
  {
  }

  lemma TwoWords(v: Bytes, hi: Bytes, lo: Bytes)
    requires |v| == 64 && |hi| == |lo| == 4
    ensures var w := v[..56] + hi + v[60..]; w[..60] + lo + w[64..] == v[..56] + (hi + lo)
  {
  }

  lemma MoreZeros(tail: Bytes, i: nat, size: Bytes)
    requires i <= 55
    ensures tail + [0x80] + Zeros(3 - i % 4) + Zeros(56 - 4 * (i / 4 + 1)) + size == tail + [0x80] + Zeros(55 - i) + size
  {
    assert Zeros(3 - i % 4) + Zeros(56 - 4 * (i / 4 + 1)) == Zeros(55 - i);
    var t := tail + [0x80];
    assert t + Zeros(3 - i % 4) + Zeros(56 - 4 * (i / 4 + 1)) == t + (Zeros(3 - i % 4) + Zeros(56 - 4 * (i / 4 + 1)));
  }

  lemma Spliced(s: Bytes, w: nat, i: nat, x: Bytes, z: Bytes)
    requires w <= i < w + 4 <= |s|
    ensures s[..w] + (s[w..i] + x + z) + s[w + 4..] == s[..i] + x + z + s[w + 4..]
  {
    assert s[..w] + s[w..i] == s[..i];
  }

  lemma Regroup(a: Bytes, t: Bytes, x: Bytes, y: Bytes, z: Bytes, s: Bytes)
    ensures a + t + x + (y + z) + s == a + (t + x + y) + (z + s)
    ensures a + t + x + y + s == a + (t + x + y + s)
  {
  }

  /** The padded message, by whether the length fits behind the padding byte. */
  lemma TwoWays(m: Bytes, tail: Bytes, size: Bytes)
    requires tail == m[Start(|m|)..] && size == BigEndian(Wrap64(8 * Wrap64(|m|)), 8)
    ensures |tail| > 55 ==> Padded(m) == m[..Start(|m|)] + (tail + [0x80] + Zeros(63 - |tail|)) + (Zeros(56) + size)
    ensures |tail| <= 55 ==> Padded(m) == m[..Start(|m|)] + (tail + [0x80] + Zeros(55 - |tail|) + size)
  {
    hide BigEndian, Padded;
    PaddedIs(m, size);
    ZerosCount(|m|);
    var a, r := m[..Start(|m|)], |tail|;
    assert m == a + tail && r == |m| % 64;
    if r > 55 {
      ZerosSplit(119 - r, 63 - r);
      Regroup(a, tail, [0x80], Zeros(63 - r), Zeros(56), size);
    } else {
      Regroup(a, tail, [0x80], Zeros(55 - r), [], size);
    }
  }

  lemma PaddedIs(m: Bytes, size: Bytes)
    requires size == BigEndian(Wrap64(8 * Wrap64(|m|)), 8)
    ensures Padded(m) == m + [0x80] + Zeros((119 - |m| % 64) % 64) + size
  {
    hide BigEndian;
    BitsOfRemainder(|m|);
  }

  lemma ZerosSplit(n: nat, k: nat)
    requires k <= n
    ensures Zeros(n) == Zeros(k) + Zeros(n - k)
  {
  }

  /** The two length words are the bit count, 64 bits wide. */
  lemma LengthBytes(count0: word, count1: word)
    ensures BigEndian(Wrap32(count1 * 8) + count0 / 0x2000_0000, 4) + BigEndian(Wrap32(count0 * 8), 4) ==
      BigEndian(Wrap64(Wide(count0, count1) * 8), 8)
  {
    hide BigEndian, Wrap32, Wrap64;
    var hi, lo := Wrap32(count1 * 8) + count0 / 0x2000_0000, Wrap32(count0 * 8);
    Powers();
    BitCount(count0, count1);
    BigEndianSplit(hi, 4, lo, 4);
  }

  /** What `count[0] += len` with one carry makes of a 64-bit count. */
  lemma CountUpIff(count0: word, count1: word, len: nat, n: nat)
    requires Wide(count0, count1) == Wrap64(n) && len < 0x1_0000_0000_0000_0000
    ensures var c := Wrap32(count0 + len);
      Wide(c, if c < len then Wrap32(count1 + 1) else count1) == Wrap64(n + len) <==> count0 + len < 0x2_0000_0000
  {
    hide Wrap32, Wrap64;
    var c := Wrap32(count0 + len);
    var p := Quotient32(count0 + len);
    var q := Unwrapped(n);
    var r := Quotient32(count1 + p);
    var d := Wrap32(count1 + p);
    Wrapped64(n + len, Wide(c, d), q + r);
    if len < 0x1_0000_0000 {
      CountAdds(count0, count1, len, n);
    } else {
      var s := Quotient32(count1 + 1);
      assert d == Wrap32(count1 + 1) <==> p == 1;
    }
  }

  /** 2^33 bytes in one call on a new context: only one of the two carries is taken. */
  lemma CountMisses(len: nat)
    requires len == 0x2_0000_0000
    ensures var c := Wrap32(len);
      c < len && Wide(c, Wrap32(1)) == 0x1_0000_0000 && Wrap64(len) == len
  {
    hide Wrap32, Wrap64;
    Wrapped32(len, 0, 2);
    Wrapped32(1, 1, 0);
    Wrapped64(len, len, 0);
  }

  // --------------------------------------------------------------- masking a word

  function And(a: nat, b: nat): nat {
    if a == 0 || b == 0 then 0 else 2 * And(a / 2, b / 2) + if a % 2 == 1 && b % 2 == 1 then 1 else 0
  }

  function Or(a: nat, b: nat): nat {
    if a == 0 then b else if b == 0 then a
    else 2 * Or(a / 2, b / 2) + if a % 2 == 1 || b % 2 == 1 then 1 else 0
  }

  const M1: seq<nat> := [0, 0xff00_0000, 0xffff_0000, 0xffff_ff00]

  const B1: seq<nat> := [0x8000_0000, 0x80_0000, 0x8000, 0x80]

  lemma {:induction false} AndOnes(w: nat, j: nat)
    requires w < Pow2(j)
    ensures And(w, Pow2(j) - 1) == w
  {
    if w > 0 { AndOnes(w / 2, j - 1); }
  }

  /** A mask of ones above k zeros clears the low k bits. */
  lemma {:induction false} AndMask(a: nat, b: nat, j: nat, k: nat)
    requires a < Pow2(j) && b < Pow2(k)
    ensures And(a * Pow2(k) + b, (Pow2(j) - 1) * Pow2(k)) == a * Pow2(k)
    decreases k
  {
    hide And;
    if k == 0 {
      AndOnes(a, j);
    } else {
      var p := Pow2(k - 1);
      AndMask(a, b / 2, j, k - 1);
      Twice(a, p);
      Twice(Pow2(j) - 1, p);
      Halves(a * p, b, (Pow2(j) - 1) * p);
    }
  }

  lemma Twice(a: nat, p: nat)
    ensures a * (2 * p) == 2 * (a * p)
  {
  }

  lemma Halves(x: nat, b: nat, m: nat)
    ensures And(2 * x + b, 2 * m) == 2 * And(x + b / 2, m)
  {
    assert (2 * x + b) / 2 == x + b / 2;
  }

  /** A bit goes into a place below which, and at which, there are zeros. */
  lemma {:induction false} OrBit(a: nat, k: nat)
    ensures Or(2 * a * Pow2(k), Pow2(k)) == 2 * a * Pow2(k) + Pow2(k)
  {
    if k == 0 {
      assert Or(2 * a, 1) == 2 * a + 1;
    } else {
      hide Or;
      OrBit(a, k - 1);
      var x := 2 * a * Pow2(k - 1);
      Twice(2 * a, Pow2(k - 1));
      OrTwice(x, Pow2(k - 1));
    }
  }

  lemma OrTwice(x: nat, y: nat)
    ensures Or(2 * x, 2 * y) == 2 * Or(x, y)
  {
  }

  lemma Powers2()
    ensures Pow2(8) == 0x100 && Pow2(16) == 0x1_0000 && Pow2(24) == 0x100_0000 && Pow2(32) == 0x1_0000_0000
    ensures Pow2(7) == 0x80 && Pow2(15) == 0x8000 && Pow2(23) == 0x80_0000 && Pow2(31) == 0x8000_0000 && Pow2(0) == 1
  {
    assert Pow2(4) == 0x10 && Pow2(12) == 0x1000 && Pow2(20) == 0x10_0000 && Pow2(28) == 0x1000_0000;
  }

  /** The masks keep the first r bytes of a word and put the padding byte behind them. */
  lemma Masked(v: Bytes, u: nat, r: nat)
    requires |v| == 4 && r < 4 && u == ((v[0] as int * 0x100 + v[1] as int) * 0x100 + v[2] as int) * 0x100 + v[3] as int
    ensures BigEndian(Or(And(u, M1[r]), B1[r]), 4) == v[..r] + [0x80] + Zeros(3 - r)
  {
    hide And, Or, Pow2, BigEndian;
    Powers2();
    var a0 := v[0] as int;
    var a1 := a0 * 0x100 + v[1] as int;
    var a2 := a1 * 0x100 + v[2] as int;
    match r
    case 0 =>
      AndMask(0, u, 0, 32);
      OrBit(0, 31);
      FourBytes(0x80, 0, 0, 0);
    case 1 =>
      AndMask(a0, u - a0 * 0x100_0000, 8, 24);
      OrBit(a0, 23);
      FourBytes(v[0], 0x80, 0, 0);
    case 2 =>
      AndMask(a1, u - a1 * 0x1_0000, 16, 16);
      OrBit(a1, 15);
      FourBytes(v[0], v[1], 0x80, 0);
    case 3 =>
      AndMask(a2, v[3], 24, 8);
      OrBit(a2, 7);
      FourBytes(v[0], v[1], v[2], 0x80);
  }

  lemma FourBytes(a: byte, b: byte, c: byte, d: byte)
    ensures BigEndian(((a as int * 0x100 + b as int) * 0x100 + c as int) * 0x100 + d as int, 4) == [a, b, c, d]
  {
    var x: nat := a as int * 0x100 + b as int;
    var y: nat := x * 0x100 + c as int;
    var z: nat := y * 0x100 + d as int;
    assert BigEndian(a, 1) == BigEndian(a as int / 256, 0) + [a] == [a];
    assert BigEndian(x, 2) == BigEndian(a, 1) + [b];
    assert BigEndian(y, 3) == BigEndian(x, 2) + [c];
    assert BigEndian(z, 4) == BigEndian(y, 3) + [d];
  }
}
