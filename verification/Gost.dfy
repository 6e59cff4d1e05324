/** gosthash.cpp: the 256-bit checksum, the bit count and the buffering of GOST R 34.11-94
    around its compression function. */
module Gost {
  import opened ByteOrder

  // ------------------------------------------------------- words, low-order word first

  function PowWord(k: nat): (p: nat)
    ensures p > 0
  {
    if k == 0 then 1 else 0x1_0000_0000 * PowWord(k - 1)
  }

  ghost function Value(w: seq<word>): nat {
    if w == [] then 0 else Value(w[..|w| - 1]) + w[|w| - 1] * PowWord(|w| - 1)
  }

  ghost function Words(b: Bytes): (w: seq<word>)
    requires |b| == 32
    ensures |w| == 8
  {
    seq(8, k requires 0 <= k < 8 => WordAt(b, 4 * k))
  }

  lemma {:induction false} ValueBound(w: seq<word>)
    ensures Value(w) < PowWord(|w|)
  {
    if w != [] {
      var x, p := w[|w| - 1], PowWord(|w| - 1);
      ValueBound(w[..|w| - 1]);
      Multiples(x, 0x1_0000_0000, p);
      assert PowWord(|w|) == 0x1_0000_0000 * p;
    }
  }

  lemma Multiples(x: nat, y: nat, p: nat)
    ensures x < y ==> x * p + p <= y * p
  {
    if x < y {
      var d := y - x - 1;
      assert y * p == x * p + p + d * p;
    }
  }

  /** The words are determined by their number and value. */
  lemma {:induction false} SameWords(v: seq<word>, w: seq<word>)
    requires |v| == |w| && Value(v) == Value(w)
    ensures v == w
  {
    if w != [] {
      var n := |w| - 1;
      var p := PowWord(n);
      ValueBound(v[..n]);
      ValueBound(w[..n]);
      DigitUnique(Value(v[..n]), v[n], Value(w[..n]), w[n], p);
      SameWords(v[..n], w[..n]);
      assert v == v[..n] + [v[n]] && w == w[..n] + [w[n]];
    }
  }

  lemma DigitUnique(a: nat, x: nat, b: nat, y: nat, p: nat)
    requires a < p && b < p && a + x * p == b + y * p
    ensures a == b && x == y
  {
    Multiples(x, y, p);
    Multiples(y, x, p);
  }

  // ------------------------------------------------------------------ whole messages

  ghost function Folded<H>(compress: (H, seq<word>) -> H, init: H, b: Bytes): H
    decreases |b|
  {
    if |b| < 32 then init
    else compress(Folded(compress, init, b[..|b| - 32]), Words(b[|b| - 32..]))
  }

  /** The sum of the blocks as 256-bit numbers. */
  ghost function Total(b: Bytes): nat
    decreases |b|
  {
    if |b| < 32 then 0
    else (Total(b[..|b| - 32]) + Value(Words(b[|b| - 32..]))) % PowWord(8)
  }

  lemma OneMore<H>(compress: (H, seq<word>) -> H, init: H, b: Bytes, block: Bytes)
    requires |block| == 32
    ensures Folded(compress, init, b + block) == compress(Folded(compress, init, b), Words(block))
    ensures Total(b + block) == (Total(b) + Value(Words(block))) % PowWord(8)
  {
    var t := b + block;
    assert t[..|t| - 32] == b && t[|t| - 32..] == block;
  }

  /** The message filled up with zeros to whole blocks. */
  ghost function ZeroPadded(m: Bytes): Bytes {
    m + Zeros((32 - |m| % 32) % 32)
  }

  /** The length in bits modulo 2^64, as a block. */
  ghost function LengthBlock(m: Bytes): seq<word> {
    [Wrap32(8 * |m|), Wrap32(8 * |m| / 0x1_0000_0000), 0, 0, 0, 0, 0, 0]
  }

  /** The filling is zeros, as few as make whole blocks. */
  lemma ZeroPaddedIs(m: Bytes)
    ensures var p := ZeroPadded(m);
      && |p| % 32 == 0 && |m| <= |p| < |m| + 32 && p[..|m|] == m && forall i | |m| <= i < |p| :: p[i] == 0
  {
  }

  /** As a 256-bit number the block is the length in bits modulo 2^64. */
  lemma LengthBlockIs(m: Bytes)
    ensures |LengthBlock(m)| == 8 && Value(LengthBlock(m)) == Wrap64(8 * |m|)
  {
    hide Wrap64, Wrap32;
    var n, b := 8 * |m|, LengthBlock(m);
    var q := Quotient32(n);
    var r := Quotient32(q);
    Wrapped64(n, Wide(Wrap32(n), Wrap32(q)), r);
    assert b[..2] == [b[0], b[1]] && b[..2][..1] == [b[0]] && [b[0]][..0] == [];
    assert PowWord(1) == 0x1_0000_0000 * PowWord(0);
    assert Value([b[0]]) == b[0];
    assert Value(b[..2]) == Value(b[..2][..1]) + b[1] * PowWord(1);
    HighZeros(b, 2);
  }

  /** Words of zero at the top do not count. */
  lemma {:induction false} HighZeros(w: seq<word>, k: nat)
    requires k <= |w| && forall i | k <= i < |w| :: w[i] == 0
    ensures Value(w) == Value(w[..k])
    decreases |w|
  {
    if |w| > k {
      HighZeros(w[..|w| - 1], k);
      assert w[..|w| - 1][..k] == w[..k];
    } else {
      assert w[..k] == w;
    }
  }

  /** s is the hash of m: its blocks, then its length, then the checksum of its blocks. */
  ghost predicate IsHash<H>(compress: (H, seq<word>) -> H, init: H, m: Bytes, h: H) {
    exists sum: seq<word> :: |sum| == 8 && Value(sum) == Total(ZeroPadded(m))
      && h == compress(compress(Folded(compress, init, ZeroPadded(m)), LengthBlock(m)), sum)
  }

  /** There is only one. */
  lemma OneHash<H>(compress: (H, seq<word>) -> H, init: H, m: Bytes, h: H, h': H)
    requires IsHash(compress, init, m, h) && IsHash(compress, init, m, h')
    ensures h == h'
  {
    var p := Folded(compress, init, ZeroPadded(m));
    var s: seq<word> :| |s| == 8 && Value(s) == Total(ZeroPadded(m)) && h == compress(compress(p, LengthBlock(m)), s);
    var t: seq<word> :| |t| == 8 && Value(t) == Total(ZeroPadded(m)) && h' == compress(compress(p, LengthBlock(m)), t);
    SameWords(s, t);
  }

  class Context<H> {
    const compress: (H, seq<word>) -> H
    const init: H
    const sum: array<word>
    var hash: H
    var len0: word
    var len1: word
    const partial: array<byte>
    var partialBytes: nat
    ghost var fed: Bytes

    ghost predicate Sound()
      reads `hash, `fed, sum
    {
      && sum.Length == 8 && |fed| % 32 == 0 && hash == Folded(compress, init, fed) && Value(sum[..]) == Total(fed)
    }

    /** The bit count, 64 bits wide. */
    ghost predicate Counted(bits: nat)
      reads `len0, `len1
    {
      Wide(len0, len1) == Wrap64(bits)
    }

    /** The whole blocks fed so far, and what waits in the buffer: up to a full block. */
    ghost predicate Valid()
      reads this, sum, partial
    {
      Sound() && partial.Length == 32 && partialBytes <= 32 && Counted(8 * |fed|)
    }

    ghost function Message(): Bytes
      requires Valid()
      reads this, sum, partial
    {
      fed + partial[..partialBytes]
    }

    /** `gosthash_reset` on a new context. */
    constructor (compress: (H, seq<word>) -> H, init: H)
      ensures Valid() && Message() == [] && this.compress == compress && this.init == init && fresh(sum) && fresh(partial)
    {
      this.compress, this.init, hash := compress, init, init;
      sum := new word[8](i => 0);
      partial := new byte[32](i => 0);
      len0, len1, partialBytes, fed := 0, 0, 0, [];
      new;
      Begun();
    }

    lemma Begun()
      requires sum.Length == 8 && (forall i | 0 <= i < 8 :: sum[i] == 0) && partial.Length == 32
      requires hash == init && len0 == len1 == partialBytes == 0 && fed == []
      ensures Valid() && Message() == []
    {
      hide Value, PowWord, Words;
      ZeroValue(sum[..]);
    }

    /** One word of the checksum, with the carry from the word before. */
    method AddWord(i: nat, a: word, carry: nat) returns (c: nat)
      requires sum.Length == 8 && i < 8 && carry <= 1
      modifies sum
      ensures c <= 1 && sum[i] + 0x1_0000_0000 * c == a + old(sum[i]) + carry
      ensures forall j | 0 <= j < 8 && j != i :: sum[j] == old(sum[j])
    {
      if carry != 0 {
        sum[i] := Wrap32(a + sum[i] + 1);
        c := if sum[i] <= a then 1 else 0;
      } else {
        sum[i] := Wrap32(a + sum[i]);
        c := if sum[i] < a then 1 else 0;
      }
    }

    /** The addition of a block to the checksum, word by word with carry. */
    method AddToSum(m: seq<word>)
      requires sum.Length == 8 && |m| == 8
      modifies sum
      ensures Value(sum[..]) == (old(Value(sum[..])) + Value(m)) % PowWord(8)
    {
      hide Value;
      var c: nat := 0;
      ghost var was := sum[..];
      NoValue();
      for i := 0 to 8
        invariant c <= 1 && sum[i..] == was[i..]
        invariant Value(sum[..i]) + c * PowWord(i) == Value(was[..i]) + Value(m[..i])
      {
        ghost var carry, low := c, sum[..i];
        c := AddWord(i, m[i], c);
        CarryStep(PowWord(i), sum[i], c, m[i], was[i], carry);
        assert sum[..][..i] == low && was[i + 1..] == was[i..][1..];
        assert forall k | i < k < 8 :: sum[k] == was[k];
        OneDigit(sum[..], i);
        OneDigit(was, i);
        OneDigit(m, i);
      }
      assert sum[..8] == sum[..] && was[..8] == was && m[..8] == m;
      ValueBound(sum[..]);
      DropCarry(Value(sum[..]), c, PowWord(8), Value(was) + Value(m));
    }

    /** `gosthash_bytes`: one block of 32 bytes, of which `bits` bits count. */
    method Block(buf: Bytes, bits: nat, ghost n: nat)
      requires Sound() && |buf| == 32 && bits <= 256 && Counted(n)
      modifies sum, `hash, `len0, `len1, `fed
      ensures Sound() && fed == old(fed) + buf && Counted(n + bits)
    {
      hide Folded, Value, Total, PowWord, Context.Counted;
      OneMore(compress, init, fed, buf);
      var m: seq<word> := seq(8, k requires 0 <= k < 8 => WordAt(buf, 4 * k));
      assert m == Words(buf);
      AddToSum(m);
      hash := compress(hash, m);
      fed := fed + buf;
      CountUp(bits, n);
    }

    /** The bit count, in two words; n is what it counts. */
    method CountUp(bits: word, ghost n: nat)
      requires Counted(n)
      modifies `len0, `len1
      ensures Counted(n + bits)
    {
      CountAdds(len0, len1, bits, n);
      len0 := Wrap32(len0 + bits);
      if len0 < bits { len1 := Wrap32(len1 + 1); }
    }

    /** `gosthash_update`: a buffer that fills up is fed at once, a full block at the end of
        the data is held back. */
    method Update(buf: Bytes)
      requires Valid()
      modifies this, sum, partial
      ensures Valid() && Message() == old(Message()) + buf
    {
      hide Context.Sound, Context.Counted;
      ghost var m := Message();
      Pieces(m, buf, 0, 0);
      var j := FillPartial(buf);
      if partialBytes < 32 { return; }
      assert partial[..32] == partial[..];
      Block(partial[..], 256, 8 * |fed|);
      while j + 32 < |buf|
        invariant 0 <= j <= |buf| && Sound() && fed == m + buf[..j] && Counted(8 * |fed|)
        modifies sum, `hash, `len0, `len1, `fed
      {
        Pieces(m, buf, j, j + 32);
        Block(buf[j..j + 32], 256, 8 * |fed|);
        j := j + 32;
      }
      Pieces(m, buf, j, |buf|);
      Keep(buf[j..|buf|]);
    }

    /** As much of the data as fits goes into the buffer. */
    method FillPartial(buf: Bytes) returns (j: nat)
      requires Valid()
      modifies `partialBytes, partial
      ensures Valid() && j <= |buf| && Message() == old(Message()) + buf[..j]
      ensures partialBytes == 32 || j == |buf|
    {
      hide Context.Sound, Context.Counted;
      j := 0;
      ghost var m := Message();
      while partialBytes < 32 && j < |buf|
        invariant Valid() && j <= |buf| && Message() == m + buf[..j]
      {
        ghost var was := Message();
        partial[partialBytes] := buf[j];
        partialBytes := partialBytes + 1;
        assert Message() == was + [buf[j]];
        Pieces(m, buf, j, j + 1);
        assert buf[j..j + 1] == [buf[j]];
        j := j + 1;
      }
    }

    /** What is left waits in the buffer. */
    method Keep(rest: Bytes)
      requires Sound() && partial.Length == 32 && |rest| <= 32 && Counted(8 * |fed|)
      modifies `partialBytes, partial
      ensures Valid() && Message() == fed + rest
    {
      hide Context.Sound, Context.Counted;
      for i := 0 to |rest|
        invariant partial[..i] == rest[..i]
        modifies partial
      {
        partial[i] := rest[i];
      }
      partialBytes := |rest|;
    }

    /** The rest of the buffer is cleared and the last block fed. */
    method LastBlock()
      requires Valid()
      modifies this, sum, partial
      ensures Sound() && fed == ZeroPadded(old(Message())) && Counted(8 * |old(Message())|)
    {
      hide Context.Sound, Context.Counted;
      ghost var m, was := Message(), fed;
      LengthOfMessage();
      if partialBytes > 0 {
        ghost var rest := partial[..partialBytes];
        for i := partialBytes to 32
          invariant partial[..partialBytes] == rest
          invariant forall k | partialBytes <= k < i :: partial[k] == 0
          modifies partial
        {
          partial[i] := 0;
        }
        assert partial[..] == rest + Zeros(32 - partialBytes);
        Block(partial[..], partialBytes * 8, 8 * |fed|);
        assert was + (rest + Zeros(32 - partialBytes)) == m + Zeros(32 - partialBytes);
      } else {
        assert m == fed && m + Zeros(0) == m;
      }
    }

    lemma LengthOfMessage()
      requires Valid()
      ensures |Message()| == |fed| + partialBytes
      ensures (32 - |Message()| % 32) % 32 == if partialBytes == 0 then 0 else 32 - partialBytes
    {
      hide Folded, Total, Value;
      ZerosMissing(|fed|, partialBytes);
    }

    /** `gosthash_final` up to the extraction of the digest. */
    method Final()
      requires Valid()
      modifies this, sum, partial
      ensures IsHash(compress, init, old(Message()), hash)
    {
      hide Folded, Total, Value, ZeroPadded;
      ghost var m := Message();
      LastBlock();
      CountWords(len0, len1, 8 * |m|);
      var length: seq<word> := [len0, len1, 0, 0, 0, 0, 0, 0];
      hash := compress(hash, length);
      hash := compress(hash, sum[..]);
    }
  }

  lemma ZerosMissing(f: nat, p: nat)
    requires f % 32 == 0 && p <= 32
    ensures (32 - (f + p) % 32) % 32 == if p == 0 then 0 else 32 - p
  {
    var q := f / 32;
    assert f + p == 32 * q + p;
    if p == 32 {
      assert f + p == 32 * (q + 1);
    } else {
      assert (f + p) % 32 == p;
    }
  }

  lemma Pieces(m: Bytes, data: Bytes, a: nat, b: nat)
    requires a <= b <= |data|
    ensures m + data[..a] + data[a..b] == m + data[..b]
    ensures m + data[..|data|] == m + data
  {
  }

  lemma NoValue()
    ensures Value([]) == 0
  {
  }

  lemma OneDigit(w: seq<word>, i: nat)
    requires i < |w|
    ensures Value(w[..i + 1]) == Value(w[..i]) + w[i] * PowWord(i)
  {
    assert w[..i + 1][..i] == w[..i];
  }

  lemma ZeroValue(w: seq<word>)
    requires forall i | 0 <= i < |w| :: w[i] == 0
    ensures Value(w) == 0
  {
    if w != [] { ZeroValue(w[..|w| - 1]); }
  }

  lemma CarryStep(p: nat, s: nat, c: nat, a: nat, w: nat, carry: nat)
    requires s + 0x1_0000_0000 * c == a + w + carry
    ensures s * p + c * (0x1_0000_0000 * p) == a * p + w * p + carry * p
  {
    assert (s + 0x1_0000_0000 * c) * p == (a + w + carry) * p;
  }

  lemma DropCarry(v: nat, c: nat, p: nat, total: nat)
    requires v < p && v + c * p == total
    ensures v == total % p
  {
    var q := total / p;
    assert total == total % p + q * p;
    DigitUnique(v, c, total % p, q, p);
  }
}
