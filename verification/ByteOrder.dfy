/** Bytes and the numbers they stand for. */
module ByteOrder {
  type byte = x: int | 0 <= x < 256
  type Bytes = seq<byte>

  function Pow256(k: nat): nat {
    if k == 0 then 1 else 256 * Pow256(k - 1)
  }

  /** k bytes, high byte first. */
  function BigEndian(u: nat, k: nat): (b: Bytes)
    ensures |b| == k
  {
    if k == 0 then [] else BigEndian(u / 256, k - 1) + [u % 256]
  }

  /** k bytes, low byte first, as a little-endian host stores a number. */
  function LittleEndian(u: nat, k: nat): (b: Bytes)
    ensures |b| == k
  {
    if k == 0 then [] else [u % 256] + LittleEndian(u / 256, k - 1)
  }

  function Number(b: Bytes): nat {
    if b == [] then 0 else Number(b[..|b| - 1]) * 256 + b[|b| - 1]
  }

  lemma {:induction false} NumberOfBytes(u: nat, k: nat)
    requires u < Pow256(k)
    ensures Number(BigEndian(u, k)) == u
  {
    if k > 0 {
      NumberOfBytes(u / 256, k - 1);
      assert BigEndian(u, k)[..k - 1] == BigEndian(u / 256, k - 1);
    }
  }

  /** The high part comes first. */
  lemma {:induction false} NumberSplit(a: Bytes, b: Bytes)
    ensures Number(a + b) == Number(a) * Pow256(|b|) + Number(b)
    decreases |b|
  {
    if b == [] {
      assert a + b == a;
    } else {
      var c, x := b[..|b| - 1], b[|b| - 1] as int;
      assert (a + b)[..|a + b| - 1] == a + c;
      NumberSplit(a, c);
      assert Number(a) * Pow256(|b|) == 256 * (Number(a) * Pow256(|c|));
    }
  }

  /** The number in the four bytes from i on, high byte first. */
  function HighFirst(b: Bytes, i: nat): word
    requires i + 4 <= |b|
  {
    (b[i] as int) * 0x100_0000 + (b[i + 1] as int) * 0x1_0000 + (b[i + 2] as int) * 0x100 + b[i + 3] as int
  }

  lemma FourBytes(b: Bytes)
    requires |b| == 4
    ensures Number(b) == HighFirst(b, 0)
  {
    var c := b[..3];
    var d := c[..2];
    assert Number(d[..1]) == b[0] by { assert d[..1][..0] == []; }
    assert Number(d) == Number(d[..1]) * 256 + b[1];
  }

  lemma SameHighFirst(b: Bytes, i: nat, c: Bytes, j: nat)
    requires i + 4 <= |b| && j + 4 <= |c| && b[i..i + 4] == c[j..j + 4]
    ensures HighFirst(b, i) == HighFirst(c, j)
  {
    var x, y := b[i..i + 4], c[j..j + 4];
    assert x[0] == y[0] && x[1] == y[1] && x[2] == y[2] && x[3] == y[3];
  }

  lemma EightBytes(b: Bytes)
    requires |b| == 8
    ensures Number(b) == HighFirst(b, 0) * 0x1_0000_0000 + HighFirst(b, 4)
  {
    FourBytes(b[..4]);
    FourBytes(b[4..]);
    assert b == b[..4] + b[4..];
    NumberSplit(b[..4], b[4..]);
    Powers();
  }

  lemma {:induction false} BytesOfNumber(b: Bytes)
    ensures BigEndian(Number(b), |b|) == b
  {
    if b != [] {
      var c := b[..|b| - 1];
      BytesOfNumber(c);
      assert Number(b) / 256 == Number(c) && Number(b) % 256 == b[|b| - 1];
      assert b == c + [b[|b| - 1]];
    }
  }

  function Reversed(b: Bytes): (r: Bytes)
    ensures |r| == |b| && forall i | 0 <= i < |b| :: r[i] == b[|b| - 1 - i]
  {
    seq(|b|, i requires 0 <= i < |b| => b[|b| - 1 - i])
  }

  lemma {:induction false} ReversedEndian(u: nat, k: nat)
    ensures Reversed(LittleEndian(u, k)) == BigEndian(u, k)
  {
    if k > 0 {
      ReversedEndian(u / 256, k - 1);
      var t := LittleEndian(u / 256, k - 1);
      assert Reversed([(u % 256) as byte] + t) == Reversed(t) + [u % 256];
    } else {
      assert Reversed([]) == [];
    }
  }

  lemma {:induction false} NumberBound(b: Bytes)
    ensures Number(b) < Pow256(|b|)
  {
    if b != [] { NumberBound(b[..|b| - 1]); }
  }

  function Zeros(n: nat): (b: Bytes)
    ensures |b| == n
  {
    seq(n, i => 0)
  }

  /** A number in two parts. */
  lemma {:induction false} BigEndianSplit(hi: nat, j: nat, lo: nat, k: nat)
    requires lo < Pow256(k)
    ensures BigEndian(hi * Pow256(k) + lo, j + k) == BigEndian(hi, j) + BigEndian(lo, k)
    decreases k
  {
    if k > 0 {
      var x := hi * Pow256(k - 1);
      assert hi * Pow256(k) == 256 * x;
      assert (256 * x + lo) / 256 == x + lo / 256 && (256 * x + lo) % 256 == lo % 256;
      BigEndianSplit(hi, j, lo / 256, k - 1);
      assert BigEndian(256 * x + lo, j + k) == BigEndian(x + lo / 256, j + k - 1) + [lo % 256];
    } else {
      assert BigEndian(lo, 0) == [];
    }
  }

  lemma Powers()
    ensures Pow256(4) == 0x1_0000_0000 && Pow256(8) == 0x1_0000_0000_0000_0000
  {
    assert Pow256(2) == 0x1_0000 && Pow256(4) == 0x1_0000_0000 && Pow256(6) == 0x1_0000_0000_0000;
  }

  /** How many zeros pad n bytes, one more and a length of eight up to whole blocks of 64. */
  lemma ZerosCount(n: nat)
    ensures var r, z := n % 64, (119 - n % 64) % 64;
      z == (if r <= 55 then 55 - r else 119 - r) && (n + 1 + z + 8) % 64 == 0
  {
    var r, z := n % 64, (119 - n % 64) % 64;
    assert z == if r <= 55 then 55 - r else 119 - r;
    assert (n + 1 + z + 8) == n - r + (if r <= 55 then 64 else 128);
  }

  lemma {:induction false} LittleEndianSplit(hi: nat, j: nat, lo: nat, k: nat)
    requires lo < Pow256(k)
    ensures LittleEndian(hi * Pow256(k) + lo, j + k) == LittleEndian(lo, k) + LittleEndian(hi, j)
    decreases k
  {
    if k > 0 {
      var x := hi * Pow256(k - 1);
      assert hi * Pow256(k) == 256 * x;
      assert (256 * x + lo) / 256 == x + lo / 256 && (256 * x + lo) % 256 == lo % 256;
      LittleEndianSplit(hi, j, lo / 256, k - 1);
      assert LittleEndian(256 * x + lo, j + k) == [lo % 256] + LittleEndian(x + lo / 256, j + k - 1);
    } else {
      assert LittleEndian(lo, 0) == [];
    }
  }

  // ----------------------------------------------------------- words and counters

  type word = x: int | 0 <= x < 0x1_0000_0000

  /** Arithmetic on unsigned words of 32 and 64 bits. */
  function Wrap32(n: nat): (w: word) {
    n % 0x1_0000_0000
  }

  function Wrap64(n: nat): (w: nat)
    ensures w < 0x1_0000_0000_0000_0000
  {
    n % 0x1_0000_0000_0000_0000
  }

  /** The number in two words. */
  function Wide(lo: nat, hi: nat): nat {
    lo + 0x1_0000_0000 * hi
  }

  /** The word whose low byte is at place i. */
  function WordAt(b: Bytes, i: nat): word
    requires i + 4 <= |b|
  {
    (b[i + 3] as int) * 0x100_0000 + (b[i + 2] as int) * 0x1_0000 + (b[i + 1] as int) * 0x100 + b[i] as int
  }

  lemma Wrapped64(n: nat, r: nat, q: nat)
    requires n == r + 0x1_0000_0000_0000_0000 * q && r < 0x1_0000_0000_0000_0000
    ensures Wrap64(n) == r
  {
  }

  lemma Wrapped32(n: nat, r: nat, q: nat)
    requires n == r + 0x1_0000_0000 * q && r < 0x1_0000_0000
    ensures Wrap32(n) == r && n / 0x1_0000_0000 == q
  {
  }

  lemma Unwrapped(n: nat) returns (q: nat)
    ensures n == Wrap64(n) + 0x1_0000_0000_0000_0000 * q
  {
    q := n / 0x1_0000_0000_0000_0000;
  }

  lemma Same64(a: nat, k: nat)
    ensures (a + 64 * k) % 64 == a % 64
  {
  }

  /** An addition of words has wrapped around exactly if its result is below an operand. */
  lemma CarryOf(a: word, b: word) returns (carry: nat)
    ensures a + b == Wrap32(a + b) + 0x1_0000_0000 * carry && carry <= 1
    ensures carry == (if Wrap32(a + b) < a then 1 else 0) == (if Wrap32(a + b) < b then 1 else 0)
  {
    carry := if a + b < 0x1_0000_0000 then 0 else 1;
    Wrapped32(a + b, a + b - 0x1_0000_0000 * carry, carry);
  }

  lemma Quotient32(n: nat) returns (q: nat)
    ensures n == Wrap32(n) + 0x1_0000_0000 * q && q == n / 0x1_0000_0000
  {
    q := n / 0x1_0000_0000;
  }

  /** A 64-bit counter in two words, as the digests keep it: the low word takes the addition, and
      the high word the carry. */
  lemma CountAdds(count0: word, count1: word, len: word, n: nat)
    requires Wide(count0, count1) == Wrap64(n)
    ensures var c := Wrap32(count0 + len);
      Wide(c, if c < len then Wrap32(count1 + 1) else count1) == Wrap64(n + len)
  {
    hide Wrap32, Wrap64;
    var q := Unwrapped(n);
    var carry := CarryOf(count0, len);
    var c, d := Wrap32(count0 + len), Wrap32(count1 + carry);
    var p := Quotient32(count1 + carry);
    if carry == 0 { Wrapped32(count1, count1, 0); }
    Wrapped64(n + len, Wide(c, d), q + p);
  }

  /** Where the last block of a message begins. */
  function Start(n: nat): (k: nat)
    ensures k <= n < k + 64 && k % 64 == 0 && n - k == n % 64
  {
    n - n % 64
  }

  lemma StartNext(n: nat, k: nat)
    ensures k < 64 - n % 64 ==> Start(n + k) == Start(n)
    ensures k == 64 - n % 64 ==> Start(n + k) == n + k
  {
  }

  lemma BitsOfRemainder(n: nat)
    ensures Wrap64(8 * Wrap64(n)) == Wrap64(8 * n)
  {
    var q := Unwrapped(n);
    var p := Unwrapped(8 * Wrap64(n));
    Wrapped64(8 * n, Wrap64(8 * Wrap64(n)), p + 8 * q);
  }

  /** The byte count tells how full the buffer is. */
  lemma PosOf(count0: word, count1: word, n: nat)
    requires Wide(count0, count1) == Wrap64(n)
    ensures count0 % 64 == n % 64
  {
    hide Wrap64;
    var q := Unwrapped(n);
    Same64(count0, 0x400_0000 * count1 + 0x400_0000_0000_0000 * q);
  }

  /** Eight times a counter, shifted in two words. */
  lemma BitCount(count0: word, count1: word)
    ensures Wide(Wrap32(count0 * 8), Wrap32(count1 * 8) + count0 / 0x2000_0000) == Wrap64(Wide(count0, count1) * 8)
    ensures Wrap32(count1 * 8) + count0 / 0x2000_0000 < 0x1_0000_0000
  {
    var lo, hi := Wrap32(count0 * 8), Wrap32(count1 * 8) + count0 / 0x2000_0000;
    var q := count1 * 8 / 0x1_0000_0000;
    assert count0 * 8 == 0x1_0000_0000 * (count0 / 0x2000_0000) + lo;
    assert count1 * 8 == 0x1_0000_0000 * q + Wrap32(count1 * 8);
    assert hi < 0x1_0000_0000;
    Wrapped64(Wide(count0, count1) * 8, Wide(lo, hi), q);
  }

  /** The bit count tells how full the buffer is. */
  lemma BitPosOf(i0: word, i1: word, n: nat)
    requires Wide(i0, i1) == Wrap64(8 * n)
    ensures i0 / 8 % 64 == n % 64
  {
    hide Wrap64;
    var q := Unwrapped(8 * n);
    var k := 0x80_0000 * i1 + 0x80_0000_0000_0000 * q;
    assert 8 * n == i0 + 8 * (64 * k);
    assert n == i0 / 8 + 64 * k;
    Same64(i0 / 8, k);
  }

  /** The bit counter of MD5: the low word takes the shifted length, the high word the carry and
      what was shifted out. */
  lemma BitsAdd(i0: word, i1: word, len: word, n: nat)
    requires Wide(i0, i1) == Wrap64(8 * n)
    ensures var s := Wrap32(i0 + Wrap32(len * 8));
      Wide(s, Wrap32((if s < i0 then Wrap32(i1 + 1) else i1) + len / 0x2000_0000)) == Wrap64(8 * (n + len))
  {
    hide Wrap64, Wrap32;
    var b := Wrap32(len * 8);
    var s := Wrap32(i0 + b);
    var q := Unwrapped(8 * n);
    var h := Quotient32(len * 8);
    var carry := CarryOf(i0, b);
    CarryTwice(i1, carry, h);
    var d := Wrap32(i1 + carry + h);
    var p := Quotient32(i1 + carry + h);
    Wrapped64(8 * (n + len), Wide(s, d), q + p);
  }

  lemma CarryTwice(a: word, carry: nat, h: nat)
    requires carry <= 1
    ensures Wrap32((if carry == 1 then Wrap32(a + 1) else a) + h) == Wrap32(a + carry + h)
  {
    if carry == 1 && a + 1 == 0x1_0000_0000 { Wrapped32(a + carry + h, Wrap32(h), 1 + h / 0x1_0000_0000); }
  }

  lemma CountWords(len0: word, len1: word, n: nat)
    requires Wide(len0, len1) == Wrap64(n)
    ensures len0 == Wrap32(n) && len1 == Wrap32(n / 0x1_0000_0000)
  {
    hide Wrap64, Wrap32;
    var q := Unwrapped(n);
    Wrapped32(n, len0, len1 + 0x1_0000_0000 * q);
    Wrapped32(n / 0x1_0000_0000, len1, q);
  }
}
