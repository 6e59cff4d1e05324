/** md5.cpp: buffering, the bit count and padding of MD5 around its transformation. */
module Md5 {
  import opened ByteOrder

  /** The words of a block, low-order byte first (section 3.4 of RFC 1321). */
  ghost function Words(b: Bytes): (w: seq<nat>)
    requires |b| == 64
    ensures |w| == 16
  {
    seq(16, k requires 0 <= k < 16 => WordAt(b, 4 * k))
  }

  ghost function Folded<H>(transform: (H, seq<nat>) -> H, init: H, b: Bytes): H
    decreases |b|
  {
    if |b| < 64 then init
    else transform(Folded(transform, init, b[..|b| - 64]), Words(b[|b| - 64..]))
  }

  lemma FoldedMore<H>(transform: (H, seq<nat>) -> H, init: H, b: Bytes, block: Bytes)
    requires |block| == 64
    ensures Folded(transform, init, b + block) == transform(Folded(transform, init, b), Words(block))
  {
    var t := b + block;
    assert t[..|t| - 64] == b && t[|t| - 64..] == block;
  }

  /** Sections 3.1 and 3.2 of RFC 1321: one 1 bit, zeros up to 56 modulo 64, and the length in
      bits modulo 2^64, low-order word first. */
  ghost function Padded(m: Bytes): Bytes {
    m + [0x80] + Zeros((119 - |m| % 64) % 64) + LittleEndian(Wrap64(8 * |m|), 8)
  }

  lemma PaddedLength(m: Bytes)
    ensures |Padded(m)| % 64 == 0 && |m| + 9 <= |Padded(m)| < |m| + 9 + 64
  {
    ZerosCount(|m|);
  }

  /** What stands where: the message, one 1 bit and zeros, and the bit count in the last two words, low
      word and low byte first. */
  lemma PaddedBytes(m: Bytes)
    ensures var p := Padded(m);
      && |p| >= |m| + 9 && p[..|m|] == m && p[|m|] == 0x80 && (forall i | |m| < i < |p| - 8 :: p[i] == 0)
      && WordAt(p, |p| - 8) + WordAt(p, |p| - 4) * 0x1_0000_0000 == Wrap64(8 * |m|)
  {
    hide LittleEndian, Wrap64;
    var p, n := Padded(m), Wrap64(8 * |m|);
    var size := LittleEndian(n, 8);
    assert p[|p| - 8..] == size;
    LengthWords(n % 0x1_0000_0000, n / 0x1_0000_0000, n);
    assert forall k | 0 <= k < 8 :: p[|p| - 8 + k] == p[|p| - 8..][k] == size[k];
  }

  /** Two messages of less than 2^61 bytes never look the same when they are padded. */
  lemma PaddedInjective(m: Bytes, n: Bytes)
    requires |m| < 0x2000_0000_0000_0000 && |n| < 0x2000_0000_0000_0000 && Padded(m) == Padded(n)
    ensures m == n
  {
    hide Padded, Wrap64;
    PaddedBytes(m);
    PaddedBytes(n);
    Wrapped64(8 * |m|, 8 * |m|, 0);
    Wrapped64(8 * |n|, 8 * |n|, 0);
  }

  class Context<H> {
    const transform: (H, seq<nat>) -> H
    const init: H
    var i0: word           // number of bits, low word
    var i1: word           // and high word
    var buf: H
    const input: array<byte>
    ghost var message: Bytes

    /** The whole blocks of t have been transformed, the rest of t waits in the buffer. */
    ghost predicate Fed(t: Bytes)
      reads `buf, input
    {
      && input.Length == 64 && buf == Folded(transform, init, t[..Start(|t|)])
      && input[..|t| % 64] == t[Start(|t|)..]
    }

    ghost predicate Valid()
      reads this, input
    {
      Wide(i0, i1) == Wrap64(8 * |message|) && Fed(message)
    }

    /** `MD5Init`; a non-zero pseudo-random number changes the initial value. */
    constructor (transform: (H, seq<nat>) -> H, init: H)
      ensures Valid() && message == [] && this.transform == transform && this.init == init && fresh(input)
    {
      this.transform, this.init, buf := transform, init, init;
      i0, i1, message := 0, 0, [];
      input := new byte[64];
    }

    /** The number of bits, in two words; n is what it counts. */
    method CountBits(inLen: word, ghost n: nat)
      requires Wide(i0, i1) == Wrap64(8 * n)
      modifies `i0, `i1
      ensures Wide(i0, i1) == Wrap64(8 * (n + inLen))
    {
      hide Wrap64;
      BitsAdd(i0, i1, inLen, n);
      if Wrap32(i0 + Wrap32(inLen * 8)) < i0 { i1 := Wrap32(i1 + 1); }
      i0 := Wrap32(i0 + Wrap32(inLen * 8));
      i1 := Wrap32(i1 + inLen / 0x2000_0000);
    }

    /** The words of a full buffer are transformed. */
    method Transform()
      requires input.Length == 64
      modifies `buf
      ensures buf == transform(old(buf), Words(input[..]))
    {
      var w: seq<nat> := [];
      for i := 0 to 16
        invariant w == Words(input[..])[..i]
      {
        w := w + [WordAt(input[..], 4 * i)];
      }
      assert w == Words(input[..]);
      buf := transform(buf, w);
    }

    /** One byte goes into the buffer, which is transformed when it is full. */
    method Put(mdi: nat, x: byte, ghost t: Bytes) returns (next: nat)
      requires Fed(t) && mdi == |t| % 64
      modifies `buf, input
      ensures Fed(t + [x]) && next == |t + [x]| % 64
    {
      hide Folded;
      StartNext(|t|, 1);
      input[mdi] := x;
      next := mdi + 1;
      if next == 64 {
        ghost var block := input[..];
        assert t + [x] == t[..Start(|t|)] + block;
        Transform();
        FoldedMore(transform, init, t[..Start(|t|)], block);
        next := 0;
        assert (t + [x])[..Start(|t + [x]|)] == t + [x];
      } else {
        assert (t + [x])[..Start(|t|)] == t[..Start(|t|)] && (t + [x])[Start(|t|)..] == t[Start(|t|)..] + [x];
      }
    }

    /** `MD5Update` */
    method Update(data: Bytes)
      requires Valid() && |data| < 0x1_0000_0000
      modifies this, input
      ensures Valid() && message == old(message) + data
    {
      hide Context.Fed;
      BitPosOf(i0, i1, |message|);
      var mdi := i0 / 8 % 64;
      ghost var t := message;
      CountBits(|data|, |message|);
      var k := 0;
      while k < |data|
        invariant 0 <= k <= |data| && t == message + data[..k] && Fed(t) && mdi == |t| % 64
        modifies `buf, input
      {
        mdi := Put(mdi, data[k], t);
        t := t + [data[k]];
        k := k + 1;
        assert data[..k] == data[..k - 1] + [data[k - 1]];
      }
      message := t;
      assert data[..k] == data;
    }

    /** `MD5Final` up to the extraction of the digest. */
    method Final()
      requires Valid()
      modifies this, input
      ensures buf == Folded(transform, init, Padded(old(message)))
    {
      hide Folded, Padded, Words, LittleEndian, Context.Fed, Wrap64, WordAt;
      ghost var m := message;
      var in14: nat, in15: nat := i0, i1;
      BitPosOf(i0, i1, |m|);
      PadLength(|m|);
      var mdi := i0 / 8 % 64;
      assert mdi == |m| % 64;
      var padLen := if mdi < 56 then 56 - mdi else 120 - mdi;
      var padding: Bytes := [0x80] + Zeros(padLen - 1);
      Update(padding);
      var w := FourteenWords();
      w := w + [in14, in15];
      LengthWords(in14, in15, Wrap64(8 * |m|));
      FinalBlock(m, padding, LittleEndian(Wrap64(8 * |m|), 8), w);
      buf := transform(buf, w);
    }

    method FourteenWords() returns (w: seq<nat>)
      requires Valid()
      ensures |w| == 14 && forall k | 0 <= k < 14 :: w[k] == WordAt(input[..], 4 * k)
    {
      w := [];
      for i := 0 to 14
        invariant |w| == i && forall k | 0 <= k < i :: w[k] == WordAt(input[..], 4 * k)
      {
        w := w + [WordAt(input[..], 4 * i)];
      }
    }

    lemma FinalBlock(m: Bytes, padding: Bytes, size: Bytes, w: seq<nat>)
      requires Fed(m + padding) && |m + padding| % 64 == 56 && padding == [0x80] + Zeros((119 - |m| % 64) % 64)
      requires size == LittleEndian(Wrap64(8 * |m|), 8) && |w| == 16
      requires forall k | 0 <= k < 14 :: w[k] == WordAt(input[..], 4 * k)
      requires w[14] == WordAt(size, 0) && w[15] == WordAt(size, 4)
      ensures transform(buf, w) == Folded(transform, init, Padded(m))
    {
      hide Folded, LittleEndian;
      var t := m + padding;
      LastWords(input[..], t[Start(|t|)..], size, w);
      FoldedMore(transform, init, t[..Start(|t|)], t[Start(|t|)..] + size);
      Joined(m, padding, size);
    }
  }

  lemma PadLength(n: nat)
    ensures var padLen := if n % 64 < 56 then 56 - n % 64 else 120 - n % 64;
      padLen >= 1 && padLen - 1 == (119 - n % 64) % 64 && (n + padLen) % 64 == 56
  {
    ZerosCount(n);
  }

  /** The last block is what waits in the buffer, with the length in place of its end. */
  lemma LastWords(input: Bytes, tail: Bytes, size: Bytes, w: seq<nat>)
    requires |input| == 64 && |tail| == 56 && |size| == 8 && input[..56] == tail && |w| == 16
    requires forall k | 0 <= k < 14 :: w[k] == WordAt(input, 4 * k)
    requires w[14] == WordAt(size, 0) && w[15] == WordAt(size, 4)
    ensures w == Words(tail + size)
  {
    var block := tail + size;
    forall k | 0 <= k < 16 ensures w[k] == WordAt(block, 4 * k) {
      if k < 14 {
        assert forall j | 4 * k <= j < 4 * k + 4 :: block[j] == tail[j] == input[j];
      } else {
        assert forall j | 4 * k <= j < 4 * k + 4 :: block[j] == size[j - 56];
      }
    }
  }

  lemma Joined(m: Bytes, padding: Bytes, size: Bytes)
    requires |m + padding| % 64 == 56 && padding == [0x80] + Zeros((119 - |m| % 64) % 64)
    requires size == LittleEndian(Wrap64(8 * |m|), 8)
    ensures var t := m + padding; t[..Start(|t|)] + (t[Start(|t|)..] + size) == Padded(m)
  {
  }

  /** The two count words are the words of the length as eight bytes. */
  lemma LengthWords(i0: word, i1: word, n: nat)
    requires Wide(i0, i1) == n
    ensures WordAt(LittleEndian(n, 8), 0) == i0 && WordAt(LittleEndian(n, 8), 4) == i1
  {
    Powers();
    LittleEndianSplit(i1, 4, i0, 4);
    WordOfBytes(i0);
    WordOfBytes(i1);
    var b := LittleEndian(n, 8);
    assert b == LittleEndian(i0, 4) + LittleEndian(i1, 4);
    assert forall j | 0 <= j < 4 :: b[j] == LittleEndian(i0, 4)[j] && b[4 + j] == LittleEndian(i1, 4)[j];
  }

  lemma WordOfBytes(x: word)
    ensures WordAt(LittleEndian(x, 4), 0) == x
  {
    var a := x / 0x100;
    var b := a / 0x100;
    var c := b / 0x100;
    assert LittleEndian(c, 1) == [c % 256] + LittleEndian(c / 256, 0);
    assert LittleEndian(b, 2) == [b % 256] + LittleEndian(c, 1);
    assert LittleEndian(a, 3) == [a % 256] + LittleEndian(b, 2);
    assert LittleEndian(x, 4) == [x % 256] + LittleEndian(a, 3);
  }
}
