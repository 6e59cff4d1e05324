/** recordio.c: a writer that grows by doubling and a bounded reader that undoes it. */
module Jute {
  import opened Common
  import opened ByteOrder

  const ENOMEM: int := 12
  const E2BIG: int := 7
  const EINVAL: int := 22

  /** Two's complement. */
  function Unsigned(i: int, k: nat): nat
    requires 0 <= i + Pow256(k) && i < Pow256(k)
  {
    if i < 0 then i + Pow256(k) else i
  }

  function Signed(u: nat, k: nat): int {
    if 2 * u < Pow256(k) then u else u - Pow256(k)
  }

  function EncodeInt(i: int32): (b: Bytes)
    ensures |b| == 4
  {
    Powers();
    BigEndian(Unsigned(i, 4), 4)
  }

  function EncodeLong(i: int64): (b: Bytes)
    ensures |b| == 8
  {
    Powers();
    BigEndian(Unsigned(i, 8), 8)
  }

  function DecodeInt(b: Bytes): (i: int32)
    requires |b| == 4
  {
    Powers();
    NumberBound(b);
    Signed(Number(b), 4)
  }

  function DecodeLong(b: Bytes): (i: int64)
    requires |b| == 8
  {
    Powers();
    NumberBound(b);
    Signed(Number(b), 8)
  }

  lemma IntRoundTrip(i: int32)
    ensures DecodeInt(EncodeInt(i)) == i
  {
    Powers();
    NumberOfBytes(Unsigned(i, 4), 4);
  }

  /** On the wire an int is two's complement, high byte first, and any four bytes are read like that. */
  lemma IntOnWire(i: int32, b: Bytes)
    requires |b| == 4
    ensures HighFirst(EncodeInt(i), 0) == if i < 0 then i + 0x1_0000_0000 else i
    ensures DecodeInt(b) == if HighFirst(b, 0) < 0x8000_0000 then HighFirst(b, 0) else HighFirst(b, 0) - 0x1_0000_0000
    ensures EncodeInt(DecodeInt(b)) == b
  {
    hide HighFirst;
    Powers();
    NumberOfBytes(Unsigned(i, 4), 4);
    FourBytes(EncodeInt(i));
    FourBytes(b);
    NumberBound(b);
    BytesOfNumber(b);
  }

  lemma LongOnWire(i: int64, b: Bytes)
    requires |b| == 8
    ensures var e := EncodeLong(i);
      HighFirst(e, 0) * 0x1_0000_0000 + HighFirst(e, 4) == if i < 0 then i + 0x1_0000_0000_0000_0000 else i
    ensures var u := HighFirst(b, 0) * 0x1_0000_0000 + HighFirst(b, 4);
      DecodeLong(b) == if u < 0x8000_0000_0000_0000 then u else u - 0x1_0000_0000_0000_0000
    ensures EncodeLong(DecodeLong(b)) == b
  {
    hide HighFirst;
    Powers();
    NumberOfBytes(Unsigned(i, 8), 8);
    EightBytes(EncodeLong(i));
    EightBytes(b);
    NumberBound(b);
    BytesOfNumber(b);
  }

  lemma LongRoundTrip(i: int64)
    ensures DecodeLong(EncodeLong(i)) == i
  {
    Powers();
    NumberOfBytes(Unsigned(i, 8), 8);
  }

  /** `htonll` on a little-endian host: the eight bytes are swapped end for end. */
  method Htonll(s: array<byte>)
    requires s.Length == 8
    modifies s
    ensures s[..] == Reversed(old(s[..]))
  {
    for i := 0 to 4
      invariant forall k | 0 <= k < i :: s[k] == old(s[7 - k]) && s[7 - k] == old(s[k])
      invariant forall k | i <= k < 8 - i :: s[k] == old(s[k])
    {
      var tmp := s[i];
      s[i] := s[7 - i];
      s[7 - i] := tmp;
    }
  }

  // ------------------------------------------------------------------------- values

  datatype Value = Int(i: int32) | Long(l: int64) | Bool(b: int32) | Buffer(bytes: Bytes) | NullBuffer
    | Str(chars: Bytes) | NullStr

  datatype Kind = IntKind | LongKind | BoolKind | BufferKind | StrKind

  function KindOf(v: Value): Kind {
    match v
    case Int(_) => IntKind
    case Long(_) => LongKind
    case Bool(_) => BoolKind
    case Buffer(_) => BufferKind
    case NullBuffer => BufferKind
    case Str(_) => StrKind
    case NullStr => StrKind
  }

  /** Lengths fit in an int32. */
  predicate Fits(v: Value) {
    match v
    case Buffer(b) => |b| < 0x8000_0000
    case Str(s) => |s| < 0x8000_0000
    case _ => true
  }

  function Encode(v: Value): Bytes
    requires Fits(v)
  {
    match v
    case Int(i) => EncodeInt(i)
    case Long(l) => EncodeLong(l)
    case Bool(b) => [if b == 0 then 0 else 1]
    case Buffer(b) => EncodeInt(|b|) + b
    case NullBuffer => EncodeInt(-1)
    case Str(s) => EncodeInt(|s|) + s
    case NullStr => EncodeInt(-1)
  }

  datatype Outcome = Ok(value: Value) | Err(code: int)

  /** A byte read as a plain `char`, which is signed. */
  function SignedChar(x: byte): int32 {
    if x < 0x80 then x else x - 0x100
  }

  /** What a reader makes of the bytes from `off` on: an outcome and the new offset. */
  function Decode(kind: Kind, b: Bytes, off: nat): (r: (Outcome, nat))
    requires off <= |b| < 0x8000_0000
    ensures off <= r.1 <= |b|
  {
    match kind
    case IntKind => if |b| - off < 4 then (Err(-E2BIG), off) else (Ok(Int(DecodeInt(b[off..off + 4]))), off + 4)
    case LongKind => if |b| - off < 8 then (Err(-E2BIG), off) else (Ok(Long(DecodeLong(b[off..off + 8]))), off + 8)
    case BoolKind => if |b| - off < 1 then (Err(-E2BIG), off) else (Ok(Bool(SignedChar(b[off]))), off + 1)
    case BufferKind =>
      if |b| - off < 4 then (Err(-E2BIG), off)
      else
        var n := DecodeInt(b[off..off + 4]);
        if |b| - (off + 4) < n then (Err(-E2BIG), off + 4)
        else if n == -1 then (Ok(NullBuffer), off + 4)
        else if n < 0 then (Err(-ENOMEM), off + 4)
        else (Ok(Buffer(b[off + 4..off + 4 + n])), off + 4 + n)
    case StrKind =>
      if |b| - off < 4 then (Err(-E2BIG), off)
      else
        var n := DecodeInt(b[off..off + 4]);
        if |b| - (off + 4) < n then (Err(-E2BIG), off + 4)
        else if n < 0 then (Err(-EINVAL), off + 4)
        else (Ok(Str(b[off + 4..off + 4 + n])), off + 4 + n)
  }

  /** Reading succeeds only on what some value is written as, and gives that value; a bool is any byte. */
  lemma ReadsWhatIsThere(kind: Kind, b: Bytes, off: nat)
    requires off <= |b| < 0x8000_0000
    ensures var (r, end) := Decode(kind, b, off);
      r.Ok? ==> && KindOf(r.value) == kind && Fits(r.value) && r.value != NullStr
                && if kind == BoolKind then end == off + 1 && r.value == Bool(SignedChar(b[off])) else b[off..end] == Encode(r.value)
  {
    hide DecodeInt, EncodeInt, DecodeLong, EncodeLong, SignedChar;
    match kind
    case BoolKind =>
    case LongKind => if |b| - off >= 8 { LongOnWire(0, b[off..off + 8]); }
    case IntKind => if |b| - off >= 4 { IntOnWire(0, b[off..off + 4]); }
    case BufferKind => if |b| - off >= 4 { LengthThere(b, off); }
    case StrKind => if |b| - off >= 4 { LengthThere(b, off); }
  }

  lemma LengthThere(b: Bytes, off: nat)
    requires off + 4 <= |b|
    ensures var n := DecodeInt(b[off..off + 4]);
      && EncodeInt(n) == b[off..off + 4]
      && (0 <= n <= |b| - (off + 4) ==> b[off..off + 4 + n] == EncodeInt(n) + b[off + 4..off + 4 + n])
  {
    hide DecodeInt, EncodeInt;
    IntOnWire(0, b[off..off + 4]);
  }

  /** The number of bytes that have to be there, as far as they tell themselves. */
  function Needs(kind: Kind, b: Bytes, off: nat): int
    requires off <= |b|
  {
    match kind
    case BoolKind => 1
    case IntKind => 4
    case LongKind => 8
    case _ => if |b| - off < 4 then 4 else 4 + DecodeInt(b[off..off + 4])
  }

  /** And it fails exactly if bytes are missing, or a length is negative that is not the one of the null
      buffer; the offset is then behind the length, if that was there. */
  lemma WhyRefused(kind: Kind, b: Bytes, off: nat)
    requires off <= |b| < 0x8000_0000
    ensures var (r, end), lengthed := Decode(kind, b, off), kind == BufferKind || kind == StrKind;
      && (r == Err(-E2BIG) <==> |b| - off < Needs(kind, b, off))
      && (r == Err(-EINVAL) <==> kind == StrKind && |b| - off >= 4 && Needs(kind, b, off) < 4)
      && (r == Err(-ENOMEM) <==> kind == BufferKind && |b| - off >= 4 && Needs(kind, b, off) < 3)
      && (r.Err? ==> r.code in {-E2BIG, -EINVAL, -ENOMEM} && end == if lengthed && |b| - off >= 4 then off + 4 else off)
  {
    hide DecodeInt, DecodeLong;
  }

  /** What comes back for a value: a bool is normalised, a null string is refused. */
  function Back(v: Value): Outcome {
    match v
    case Bool(b) => Ok(Bool(if b == 0 then 0 else 1))
    case NullStr => Err(-EINVAL)
    case _ => Ok(v)
  }

  lemma Middle(before: Bytes, x: Bytes, y: Bytes, rest: Bytes)
    ensures var b, off := before + (x + y) + rest, |before|;
      b[off..off + |x|] == x && b[off + |x|..off + |x| + |y|] == y
  {
  }

  /** A value written between any bytes is read back, and exactly its bytes are consumed. */
  lemma ReadBack(before: Bytes, v: Value, rest: Bytes)
    requires Fits(v) && |before + Encode(v) + rest| < 0x8000_0000
    ensures Decode(KindOf(v), before + Encode(v) + rest, |before|) == (Back(v), |before| + |Encode(v)|)
  {
    hide BigEndian, Number, EncodeInt, EncodeLong, DecodeInt, DecodeLong;
    match v
    case Int(i) => IntRoundTrip(i); Middle(before, EncodeInt(i), [], rest); assert EncodeInt(i) + [] == EncodeInt(i);
    case Long(l) => LongRoundTrip(l); Middle(before, EncodeLong(l), [], rest); assert EncodeLong(l) + [] == EncodeLong(l);
    case Bool(_) =>
    case Buffer(s) => IntRoundTrip(|s|); Middle(before, EncodeInt(|s|), s, rest);
    case NullBuffer => IntRoundTrip(-1); Middle(before, EncodeInt(-1), [], rest); assert EncodeInt(-1) + [] == EncodeInt(-1);
    case Str(s) => IntRoundTrip(|s|); Middle(before, EncodeInt(|s|), s, rest);
    case NullStr => IntRoundTrip(-1); Middle(before, EncodeInt(-1), [], rest); assert EncodeInt(-1) + [] == EncodeInt(-1);
  }

  /** What is written comes back as it was exactly if it is not a null string and, for a bool,
      0 or 1. */
  lemma SurvivesIff(before: Bytes, v: Value, rest: Bytes)
    requires Fits(v) && |before + Encode(v) + rest| < 0x8000_0000
    ensures Decode(KindOf(v), before + Encode(v) + rest, |before|).0 == Ok(v)
      <==> v != NullStr && (v.Bool? ==> v.b == 0 || v.b == 1)
  {
    hide Decode, Encode;
    ReadBack(before, v, rest);
  }

  // ------------------------------------------------------------------ whole records

  ghost predicate AllFit(vs: seq<Value>) {
    forall i | 0 <= i < |vs| :: Fits(vs[i])
  }

  function EncodeAll(vs: seq<Value>): Bytes
    requires AllFit(vs)
  {
    if vs == [] then [] else EncodeAll(vs[..|vs| - 1]) + Encode(vs[|vs| - 1])
  }

  function Kinds(vs: seq<Value>): (ks: seq<Kind>)
    ensures |ks| == |vs|
  {
    seq(|vs|, i requires 0 <= i < |vs| => KindOf(vs[i]))
  }

  /** Reading one value after another: the outcomes and the final offset. */
  function DecodeAll(ks: seq<Kind>, b: Bytes): (r: (seq<Outcome>, nat))
    requires |b| < 0x8000_0000
    ensures |r.0| == |ks| && r.1 <= |b|
  {
    if ks == [] then ([], 0)
    else
      var r := DecodeAll(ks[..|ks| - 1], b);
      var d := Decode(ks[|ks| - 1], b, r.1);
      (r.0 + [d.0], d.1)
  }

  function Backs(vs: seq<Value>): (os: seq<Outcome>)
    ensures |os| == |vs|
  {
    seq(|vs|, i requires 0 <= i < |vs| => Back(vs[i]))
  }

  /** Any record read back with the same types gives the same values and consumes exactly
      the written bytes, whatever follows them. */
  lemma {:induction false} RecordRoundTrip(vs: seq<Value>, rest: Bytes)
    requires AllFit(vs) && |EncodeAll(vs) + rest| < 0x8000_0000
    ensures DecodeAll(Kinds(vs), EncodeAll(vs) + rest) == (Backs(vs), |EncodeAll(vs)|)
    decreases |vs|
  {
    hide Encode, Decode, Back;
    if vs != [] {
      var n := |vs| - 1;
      var w, v := vs[..n], vs[n];
      assert (EncodeAll(w) + Encode(v)) + rest == EncodeAll(w) + (Encode(v) + rest);
      RecordRoundTrip(w, Encode(v) + rest);
      ReadBack(EncodeAll(w), v, rest);
      assert Kinds(vs)[..n] == Kinds(w) && Backs(vs) == Backs(w) + [Back(v)];
    }
  }

  // --------------------------------------------------------------------- the writer

  ghost function Doubled(k: nat): (n: nat)
    ensures n >= 128
  {
    if k == 0 then 128 else 2 * Doubled(k - 1)
  }

  lemma {:induction false} DoubledEven(k: nat)
    ensures Doubled(k) <= LARGEST ==> Doubled(k) == LARGEST || 2 * Doubled(k) <= LARGEST
  {
    if k > 0 {
      DoubledEven(k - 1);
      DoubledSteps(k);
    }
  }

  lemma DoubledSteps(k: nat)
    ensures k <= 23 ==> Doubled(k) <= LARGEST
    ensures k == 23 ==> Doubled(k) == LARGEST
    ensures k > 23 ==> Doubled(k) > LARGEST
    ensures k < 23 ==> 2 * Doubled(k) <= LARGEST
  {
    if k > 23 {
      DoubledSteps(k - 1);
    } else {
      var d := [128, 256, 512, 1024, 2048, 4096, 8192, 16384, 32768, 65536, 131072, 262144, 524288, 1048576, 2097152,
                4194304, 8388608, 16777216, 33554432, 67108864, 134217728, 268435456, 536870912, 1073741824];
      DoubledList(d, k);
    }
  }

  lemma {:induction false} DoubledList(d: seq<nat>, k: nat)
    requires k < |d| && d[0] == 128 && forall i | 1 <= i < |d| :: d[i] == 2 * d[i - 1]
    ensures Doubled(k) == d[k]
  {
    if k > 0 { DoubledList(d, k - 1); }
  }

  /** The largest length an archive can have: the largest power of two that is an int32. */
  const LARGEST: nat := 0x4000_0000

  /** An int32 that wraps around. */
  function Wrapped(x: int): int32 {
    (x + 0x8000_0000) % 0x1_0000_0000 - 0x8000_0000
  }

  /** The length after k turns of the loop of `resize_buffer`. */
  function Turns(len: int32, k: nat): int32 {
    if k == 0 then len else Wrapped(2 * Turns(len, k - 1))
  }

  /** The loop of `resize_buffer` comes to an end exactly if a length of 2^30 is enough. */
  lemma ResizeEndsIff(j: nat, newlen: int32)
    requires Doubled(j) <= LARGEST
    ensures (exists k :: Turns(Doubled(j), k) >= newlen) <==> newlen <= LARGEST
  {
    DoubledSteps(j);
    if newlen <= LARGEST {
      TurnsUp(j, 23 - j);
      DoubledSteps(23);
      assert Turns(Doubled(j), 23 - j) >= newlen;
    } else {
      forall k ensures Turns(Doubled(j), k) < newlen {
        TurnsBound(j, k);
      }
    }
  }

  lemma WrappedTwice(x: int32)
    ensures 0 <= 2 * x <= LARGEST ==> Wrapped(2 * x) == 2 * x
    ensures x == LARGEST ==> Wrapped(2 * x) == -0x8000_0000
    ensures x == -0x8000_0000 ==> Wrapped(2 * x) == 0
  {
  }

  lemma {:induction false} TurnsUp(j: nat, k: nat)
    requires j + k <= 23
    ensures Doubled(j) <= LARGEST && Doubled(j + k) <= LARGEST && Turns(Doubled(j), k) == Doubled(j + k)
  {
    hide Wrapped;
    DoubledSteps(j);
    DoubledSteps(j + k);
    if k > 0 {
      TurnsUp(j, k - 1);
      WrappedTwice(Doubled(j + k - 1));
    }
  }

  /** After 2^30 come -2^31 and then nothing but 0. */
  lemma {:induction false} TurnsBound(j: nat, k: nat)
    requires Doubled(j) <= LARGEST
    ensures Turns(Doubled(j), k) <= LARGEST
    ensures Turns(Doubled(j), k) in {0, -0x8000_0000} || (j + k <= 23 && Turns(Doubled(j), k) == Doubled(j + k))
  {
    hide Wrapped, Doubled;
    DoubledSteps(j);
    if k > 0 {
      TurnsBound(j, k - 1);
      WrappedTwice(Turns(Doubled(j), k - 1));
      OneTurn(Doubled(j), k);
      if j + k <= 24 { DoubledOnce(j + k - 1); }
    }
  }

  lemma OneTurn(len: int32, k: nat)
    requires k > 0
    ensures Turns(len, k) == Wrapped(2 * Turns(len, k - 1))
  {
  }

  lemma DoubledOnce(i: nat)
    ensures Doubled(i + 1) == 2 * Doubled(i)
    ensures i < 23 ==> 0 < 2 * Doubled(i) <= LARGEST
    ensures i == 23 ==> Doubled(i) == LARGEST
  {
    DoubledSteps(i);
  }

  /** For a length of one more than 2^30 the loop never ends. */
  lemma ResizeNeverEnds()
    ensures forall k :: Turns(128, k) < LARGEST + 1
  {
    forall k ensures Turns(128, k) < LARGEST + 1 {
      DoubledSteps(0);
      TurnsBound(0, k);
    }
  }

  /** The loop of `resize_buffer` ends after k turns and no earlier. */
  ghost predicate Ends(len: int32, newlen: int32, k: nat) {
    Turns(len, k) >= newlen && forall i | 0 <= i < k :: Turns(len, i) < newlen
  }

  lemma {:induction false} EndsSomewhere(len: int32, newlen: int32, k: nat) returns (j: nat)
    requires Turns(len, k) >= newlen
    ensures j <= k && Ends(len, newlen, j)
  {
    if i :| 0 <= i < k && Turns(len, i) >= newlen {
      j := EndsSomewhere(len, newlen, i);
    } else {
      j := k;
    }
  }

  /** A buffer of 128 * 2^j bytes, too full for `need` more, is asked to grow by them, in wrapping
      arithmetic: the loop ends with room for them if and only if the sum is at most 2^30.  Above,
      it does not end; from 2^31 on the sum is negative and nothing grows. */
  lemma RoomIff(j: nat, off: nat, need: int32)
    requires Doubled(j) <= LARGEST && off <= Doubled(j) && Doubled(j) - off < need
    ensures (exists k :: Ends(Doubled(j), Wrapped(Doubled(j) + need), k) && Turns(Doubled(j), k) - off >= need)
      <==> Doubled(j) + need <= LARGEST
  {
    hide Wrapped, Turns, Ends, Doubled;
    if Doubled(j) + need <= LARGEST {
      var k := Room(j, off, need);
    } else {
      forall k | Ends(Doubled(j), Wrapped(Doubled(j) + need), k) ensures Turns(Doubled(j), k) - off < need {
        NoRoom(j, off, need, k);
      }
    }
  }

  lemma WrappedSum(x: nat)
    ensures x < 0x8000_0000 ==> Wrapped(x) == x
    ensures 0x8000_0000 <= x < 0x1_0000_0000 ==> Wrapped(x) < 0
  {
  }

  lemma Room(j: nat, off: nat, need: int32) returns (k: nat)
    requires Doubled(j) <= LARGEST && off <= Doubled(j) && Doubled(j) - off < need && Doubled(j) + need <= LARGEST
    ensures Ends(Doubled(j), Wrapped(Doubled(j) + need), k) && Turns(Doubled(j), k) - off >= need
  {
    hide Wrapped, Turns, Doubled;
    var len: int32 := Doubled(j);
    var newlen := Wrapped(len + need);
    WrappedSum(len + need);
    ResizeEndsIff(j, newlen);
    var k0 :| Turns(len, k0) >= newlen;
    k := EndsSomewhere(len, newlen, k0);
  }

  lemma NoRoom(j: nat, off: nat, need: int32, k: nat)
    requires Doubled(j) <= LARGEST && off <= Doubled(j) && Doubled(j) - off < need && Doubled(j) + need > LARGEST
    requires Ends(Doubled(j), Wrapped(Doubled(j) + need), k)
    ensures Turns(Doubled(j), k) - off < need
  {
    hide Wrapped, Doubled;
    var len: int32 := Doubled(j);
    WrappedSum(len + need);
    if len + need < 0x8000_0000 {
      ResizeEndsIff(j, Wrapped(len + need));
    } else {
      EndsAtOnce(len, Wrapped(len + need), k);
    }
  }

  lemma EndsAtOnce(len: int32, newlen: int32, k: nat)
    requires newlen <= len && Ends(len, newlen, k)
    ensures k == 0
  {
    if k > 0 { assert Turns(len, 0) == len; }
  }

  /** The length `resize_buffer` comes to. */
  function Grown(len: nat, newlen: nat): (n: nat)
    requires len > 0
    ensures n >= newlen && n >= len && (n == len || n < 2 * newlen)
    decreases newlen - len
  {
    if len >= newlen then len else Grown(2 * len, newlen)
  }

  /** The length of an archive after `need` more bytes behind `off`. */
  function LenFor(len: nat, off: nat, need: nat): (n: nat)
    requires len > 0 && off <= len
    ensures off + need <= n
  {
    if len - off < need then Grown(len, len + need) else len
  }

  /** Pieces of these sizes can be written one after the other: whenever the buffer must grow, a
      length of 2^30 is enough. */
  ghost predicate CanTake(len: nat, off: nat, sizes: seq<nat>)
    requires len > 0 && off <= len
    decreases |sizes|
  {
    sizes == [] ||
    (&& (len - off < sizes[0] ==> len + sizes[0] <= LARGEST)
     && CanTake(LenFor(len, off, sizes[0]), off + sizes[0], sizes[1..]))
  }

  ghost function LenAfter(len: nat, off: nat, sizes: seq<nat>): (n: nat)
    requires len > 0 && off <= len
    ensures off <= n && n > 0
    decreases |sizes|
  {
    if sizes == [] then len else LenAfter(LenFor(len, off, sizes[0]), off + sizes[0], sizes[1..])
  }

  /** What is copied for a value, piece by piece. */
  ghost function Pieces(v: Value): seq<nat> {
    match v
    case Int(_) => [4]
    case Long(_) => [8]
    case Bool(_) => [1]
    case Buffer(b) => [4, |b|]
    case Str(s) => [4, |s|]
    case _ => [4]
  }

  ghost function AllPieces(vs: seq<Value>): seq<nat> {
    if vs == [] then [] else Pieces(vs[0]) + AllPieces(vs[1..])
  }

  ghost function Sum(sizes: seq<nat>): nat {
    if sizes == [] then 0 else sizes[0] + Sum(sizes[1..])
  }

  lemma {:induction false} SumAppend(a: seq<nat>, b: seq<nat>)
    ensures Sum(a + b) == Sum(a) + Sum(b)
  {
    if a == [] {
      assert a + b == b;
    } else {
      assert (a + b)[1..] == a[1..] + b;
      SumAppend(a[1..], b);
    }
  }

  lemma SumPieces(v: Value)
    requires Fits(v)
    ensures Sum(Pieces(v)) == |Encode(v)|
  {
    match v
    case Buffer(b) => assert Pieces(v)[1..] == [|b|] && Sum([|b|]) == |b| + Sum([|b|][1..]);
    case Str(s) => assert Pieces(v)[1..] == [|s|] && Sum([|s|]) == |s| + Sum([|s|][1..]);
    case _ => assert Pieces(v)[1..] == [];
  }

  lemma {:induction false} SumAllPieces(vs: seq<Value>)
    requires AllFit(vs)
    ensures Sum(AllPieces(vs)) == |EncodeAll(vs)|
  {
    hide Encode, Pieces;
    if vs != [] {
      SumPieces(vs[0]);
      SumAppend(Pieces(vs[0]), AllPieces(vs[1..]));
      SumAllPieces(vs[1..]);
      EncodeFront(vs);
    }
  }

  lemma {:induction false} EncodeFront(vs: seq<Value>)
    requires AllFit(vs) && vs != []
    ensures EncodeAll(vs) == Encode(vs[0]) + EncodeAll(vs[1..])
    decreases |vs|
  {
    hide Encode;
    var n := |vs| - 1;
    if n > 0 {
      EncodeFront(vs[..n]);
      assert vs[..n][1..] == vs[1..][..n - 1];
    } else {
      assert vs[..0] == [] && vs[1..] == [];
    }
  }

  /** Pieces of at most 2^29 bytes in all can always be written. */
  lemma {:induction false} SmallEnough(len: nat, off: nat, sizes: seq<nat>)
    requires len > 0 && off <= len && off + Sum(sizes) <= LARGEST / 2
    ensures CanTake(len, off, sizes)
    decreases |sizes|
  {
    if sizes != [] { SmallEnough(LenFor(len, off, sizes[0]), off + sizes[0], sizes[1..]); }
  }

  lemma {:induction false} TakeSplit(len: nat, off: nat, a: seq<nat>, b: seq<nat>)
    requires len > 0 && off <= len && CanTake(len, off, a + b)
    ensures CanTake(len, off, a)
    ensures off + Sum(a) <= LenAfter(len, off, a) && CanTake(LenAfter(len, off, a), off + Sum(a), b)
    decreases |a|
  {
    if a == [] {
      assert a + b == b;
    } else {
      assert (a + b)[0] == a[0] && (a + b)[1..] == a[1..] + b;
      TakeSplit(LenFor(len, off, a[0]), off + a[0], a[1..], b);
    }
  }

  /** `realloc` to a size that is not smaller. */
  method Realloc(was: array<byte>, len: nat) returns (a: array<byte>)
    requires was.Length <= len
    ensures fresh(a) && a.Length == len && a[..was.Length] == was[..]
  {
    a := new byte[len](i => 0);
    for i := 0 to was.Length
      invariant forall k | 0 <= k < i :: a[k] == was[k]
    {
      a[i] := was[i];
    }
  }

  class OArchive {
    var buffer: array?<byte>
    var len: int
    var off: nat
    ghost var doublings: nat

    ghost predicate Valid()
      reads this
    {
      buffer != null && buffer.Length == len == Doubled(doublings) && off <= len <= LARGEST
    }

    ghost function Contents(): Bytes
      requires buffer != null && off <= buffer.Length
      reads this, buffer
    {
      buffer[..off]
    }

    /** `create_buffer_oarchive` */
    constructor ()
      ensures Valid() && Contents() == [] && fresh(buffer) && len == 128 && off == 0
    {
      buffer := new byte[128](i => 0);
      len, off, doublings := 128, 0, 0;
    }

    /** `resize_buffer`; `memory` says whether there is memory. */
    method ResizeBuffer(newlen: int, memory: bool) returns (rc: int)
      requires Valid() && len <= newlen <= LARGEST
      modifies `buffer, `len, `doublings
      ensures len == Doubled(doublings) == Grown(old(len), newlen) && newlen <= len <= LARGEST
      ensures if memory then rc == 0 && buffer != null && fresh(buffer) && buffer.Length == len && buffer[..off] == old(Contents())
              else rc == -ENOMEM && buffer == null
    {
      while len < newlen
        invariant 0 < len == Doubled(doublings) <= LARGEST && Grown(len, newlen) == Grown(old(len), newlen)
        invariant old(len) <= len
        modifies `len, `doublings
        decreases newlen - len
      {
        DoubledEven(doublings);
        len := len * 2;
        doublings := doublings + 1;
      }
      if !memory {
        buffer := null;
        return -ENOMEM;
      }
      buffer := Realloc(buffer, len);
      rc := 0;
    }

    /** The test before every copy: the buffer grows if what is to be written does not fit. */
    method MakeRoom(need: nat, memory: bool) returns (rc: int)
      requires Valid() && (len - off < need ==> len + need <= LARGEST)
      modifies `buffer, `len, `doublings
      ensures if buffer != null then rc == 0 && Valid() && off + need <= len && Contents() == old(Contents()) else rc == -ENOMEM && !memory
      ensures buffer == old(buffer) || buffer == null || fresh(buffer)
      ensures len == LenFor(old(len), off, need)
    {
      rc := 0;
      if len - off < need { rc := ResizeBuffer(len + need, memory); }
    }

    /** `memcpy` behind the bytes written. */
    method Put(b: Bytes)
      requires Valid() && off + |b| <= len
      modifies `off, buffer
      ensures Valid() && Contents() == old(buffer[..off]) + b && off == old(off) + |b|
    {
      for i := 0 to |b|
        invariant off == old(off) && buffer[..off] == old(buffer[..off])
        invariant forall k | 0 <= k < i :: buffer[off + k] == b[k]
      {
        buffer[off + i] := b[i];
      }
      off := off + |b|;
    }

    /** What a successful write leaves behind. */
    twostate predicate Wrote(b: Bytes, sizes: seq<nat>)
      requires old(Valid())
      reads this, buffer
    {
      Valid() && Contents() == old(Contents()) + b && len == LenAfter(old(len), old(off), sizes) && off == old(off) + Sum(sizes)
    }

    method Append(b: Bytes, memory: bool) returns (rc: int)
      requires Valid() && CanTake(len, off, [|b|])
      modifies this, buffer
      ensures if buffer != null then rc == 0 && Wrote(b, [|b|]) else rc == -ENOMEM && !memory
      ensures buffer == old(buffer) || buffer == null || fresh(buffer)
    {
      assert [|b|][1..] == [];
      rc := MakeRoom(|b|, memory);
      if rc < 0 { return; }
      Put(b);
    }

    method SerializeInt(d: int32, memory: bool) returns (rc: int)
      requires Valid() && CanTake(len, off, Pieces(Int(d)))
      modifies this, buffer
      ensures if buffer != null then rc == 0 && Wrote(Encode(Int(d)), Pieces(Int(d))) else rc == -ENOMEM && !memory
      ensures buffer != null ==> off == old(off) + 4 && HighFirst(Contents(), old(off)) == if d < 0 then d + 0x1_0000_0000 else d
      ensures buffer == old(buffer) || buffer == null || fresh(buffer)
    {
      Powers();
      ReversedEndian(Unsigned(d, 4), 4);
      rc := Append(Reversed(LittleEndian(Unsigned(d, 4), 4)), memory);    // htonl of the native bytes
      IntOnWire(d, EncodeInt(d));
      assert buffer != null ==> Contents() == old(Contents()) + EncodeInt(d);
    }

    method SerializeLong(d: int64, memory: bool) returns (rc: int)
      requires Valid() && CanTake(len, off, Pieces(Long(d)))
      modifies this, buffer
      ensures if buffer != null then rc == 0 && Wrote(Encode(Long(d)), Pieces(Long(d))) else rc == -ENOMEM && !memory
      ensures buffer == old(buffer) || buffer == null || fresh(buffer)
    {
      Powers();
      var native := LittleEndian(Unsigned(d, 8), 8);
      var s := new byte[8](i requires 0 <= i < 8 => native[i]);
      assert s[..] == native;
      Htonll(s);
      ReversedEndian(Unsigned(d, 8), 8);
      rc := Append(s[..], memory);
    }

    method SerializeBool(i: int32, memory: bool) returns (rc: int)
      requires Valid() && CanTake(len, off, Pieces(Bool(i)))
      modifies this, buffer
      ensures if buffer != null then rc == 0 && Wrote(Encode(Bool(i)), Pieces(Bool(i))) else rc == -ENOMEM && !memory
      ensures buffer == old(buffer) || buffer == null || fresh(buffer)
    {
      rc := Append([if i == 0 then 0 else 1], memory);
    }

    /** `oa_serialize_buffer`; the null buffer has length -1, a null pointer is written the same way. */
    method SerializeBuffer(b: Value, memory: bool) returns (rc: int)
      requires b.Buffer? || b.NullBuffer?
      requires Valid() && Fits(b) && CanTake(len, off, Pieces(b))
      modifies this, buffer
      ensures if buffer != null then rc == 0 && Wrote(Encode(b), Pieces(b)) else rc == -ENOMEM && !memory
      ensures buffer == old(buffer) || buffer == null || fresh(buffer)
    {
      if b.NullBuffer? {
        rc := SerializeInt(-1, memory);
        return;
      }
      rc := WithLength(b.bytes, memory);
    }

    /** A length and the bytes behind it. */
    method WithLength(b: Bytes, memory: bool) returns (rc: int)
      requires Valid() && |b| < 0x8000_0000 && CanTake(len, off, [4, |b|])
      modifies this, buffer
      ensures if buffer != null then rc == 0 && Wrote(EncodeInt(|b|) + b, [4, |b|]) else rc == -ENOMEM && !memory
      ensures buffer == old(buffer) || buffer == null || fresh(buffer)
    {
      hide Sum, LenAfter, CanTake, EncodeInt, Doubled;
      ghost var was, len0, off0 := Contents(), len, off;
      assert [4, |b|] == [4] + [|b|];
      TakeSplit(len, off, [4], [|b|]);
      rc := SerializeInt(|b|, memory);
      if rc < 0 { return; }
      AfterSplit(len0, off0, [4], [|b|]);
      SumAppend([4], [|b|]);
      rc := Append(b, memory);
      assert was + EncodeInt(|b|) + b == was + (EncodeInt(|b|) + b);
    }

    /** `oa_serialize_string`; for a null string the outcome of writing the -1 is ignored. */
    method SerializeString(s: Value, memory: bool) returns (rc: int)
      requires s.Str? || s.NullStr?
      requires Valid() && Fits(s) && CanTake(len, off, Pieces(s))
      modifies this, buffer
      ensures if buffer != null then rc == 0 && Wrote(Encode(s), Pieces(s)) else !memory && rc == if s.NullStr? then 0 else -ENOMEM
      ensures buffer == old(buffer) || buffer == null || fresh(buffer)
    {
      if s.NullStr? {
        var _ := SerializeInt(-1, memory);
        return 0;
      }
      rc := WithLength(s.chars, memory);
    }

    method Serialize(v: Value, memory: bool) returns (rc: int)
      requires Valid() && Fits(v) && CanTake(len, off, Pieces(v))
      modifies this, buffer
      ensures if buffer != null then rc == 0 && Wrote(Encode(v), Pieces(v)) else !memory
      ensures buffer == old(buffer) || buffer == null || fresh(buffer)
    {
      hide BigEndian;
      match v
      case Int(i) => rc := SerializeInt(i, memory);
      case Long(l) => rc := SerializeLong(l, memory);
      case Bool(b) => rc := SerializeBool(b, memory);
      case Buffer(_) => rc := SerializeBuffer(v, memory);
      case NullBuffer => rc := SerializeBuffer(v, memory);
      case Str(_) => rc := SerializeString(v, memory);
      case NullStr => rc := SerializeString(v, memory);
    }
  }

  lemma {:induction false} AfterSplit(len: nat, off: nat, a: seq<nat>, b: seq<nat>)
    requires len > 0 && off <= len
    ensures off + Sum(a) <= LenAfter(len, off, a)
    ensures LenAfter(len, off, a + b) == LenAfter(LenAfter(len, off, a), off + Sum(a), b)
    decreases |a|
  {
    if a == [] {
      assert a + b == b;
    } else {
      assert (a + b)[0] == a[0] && (a + b)[1..] == a[1..] + b;
      AfterSplit(LenFor(len, off, a[0]), off + a[0], a[1..], b);
    }
  }

  /** A record written to a new archive, when there is memory. */
  method WriteRecord(vs: seq<Value>) returns (oa: OArchive)
    requires AllFit(vs) && CanTake(128, 0, AllPieces(vs))
    ensures oa.Valid() && oa.Contents() == EncodeAll(vs)
  {
    hide CanTake, LenAfter, Pieces, Encode;
    oa := new OArchive();
    assert vs[..|vs|] == vs && vs[0..] == vs;
    for i := 0 to |vs|
      invariant oa.Valid() && oa.Contents() == EncodeAll(vs[..i]) && fresh(oa) && fresh(oa.buffer)
      invariant CanTake(oa.len, oa.off, AllPieces(vs[i..]))
    {
      assert vs[..i + 1][..i] == vs[..i];
      assert vs[i..][1..] == vs[i + 1..];
      TakeSplit(oa.len, oa.off, Pieces(vs[i]), AllPieces(vs[i + 1..]));
      var _ := oa.Serialize(vs[i], true);
    }
  }

  /** A record of at most 2^29 bytes can be written. */
  lemma RecordFits(vs: seq<Value>)
    requires AllFit(vs) && |EncodeAll(vs)| <= LARGEST / 2
    ensures CanTake(128, 0, AllPieces(vs))
  {
    SumAllPieces(vs);
    SmallEnough(128, 0, AllPieces(vs));
  }

  // --------------------------------------------------------------------- the reader

  /** Bytes and strings are copied to new memory; without it the reader stops behind the length. */
  function Supplied(d: (Outcome, nat), off: nat, memory: bool): (Outcome, nat) {
    if !memory && d.0.Ok? && (d.0.value.Buffer? || d.0.value.Str?) then (Err(-ENOMEM), off + 4) else d
  }

  class IArchive {
    const buffer: array<byte>
    var off: nat

    ghost predicate Valid()
      reads this
    {
      off <= buffer.Length < 0x8000_0000
    }

    /** `create_buffer_iarchive` */
    constructor (buffer: array<byte>)
      requires buffer.Length < 0x8000_0000
      ensures Valid() && this.buffer == buffer && off == 0
    {
      this.buffer := buffer;
      off := 0;
    }

    method DeserializeInt() returns (r: Outcome)
      requires Valid()
      modifies this
      ensures Valid() && (r, off) == Decode(IntKind, buffer[..], old(off))
    {
      if buffer.Length - off < 4 { return Err(-E2BIG); }
      r := Ok(Int(DecodeInt(buffer[off..off + 4])));
      assert buffer[off..off + 4] == buffer[..][off..off + 4];
      off := off + 4;
    }

    method DeserializeLong() returns (r: Outcome)
      requires Valid()
      modifies this
      ensures Valid() && (r, off) == Decode(LongKind, buffer[..], old(off))
    {
      if buffer.Length - off < 8 { return Err(-E2BIG); }
      r := Ok(Long(DecodeLong(buffer[off..off + 8])));
      assert buffer[off..off + 8] == buffer[..][off..off + 8];
      off := off + 8;
    }

    method DeserializeBool() returns (r: Outcome)
      requires Valid()
      modifies this
      ensures Valid() && (r, off) == Decode(BoolKind, buffer[..], old(off))
    {
      if buffer.Length - off < 1 { return Err(-E2BIG); }
      r := Ok(Bool(SignedChar(buffer[off])));
      off := off + 1;
    }

    method DeserializeBuffer(memory: bool) returns (r: Outcome)
      requires Valid()
      modifies this
      ensures Valid() && (r, off) == Supplied(Decode(BufferKind, buffer[..], old(off)), old(off), memory)
    {
      r := DeserializeInt();
      if r.Err? { return; }
      var len := r.value.i;
      if buffer.Length - off < len { return Err(-E2BIG); }
      if len == -1 { return Ok(NullBuffer); }
      if len < 0 || !memory { return Err(-ENOMEM); }
      r := Ok(Buffer(buffer[off..off + len]));
      assert buffer[off..off + len] == buffer[..][off..off + len];
      off := off + len;
    }

    method DeserializeString(memory: bool) returns (r: Outcome)
      requires Valid()
      modifies this
      ensures Valid() && (r, off) == Supplied(Decode(StrKind, buffer[..], old(off)), old(off), memory)
    {
      r := DeserializeInt();
      if r.Err? { return; }
      var len := r.value.i;
      if buffer.Length - off < len { return Err(-E2BIG); }
      if len < 0 { return Err(-EINVAL); }
      if !memory { return Err(-ENOMEM); }
      r := Ok(Str(buffer[off..off + len]));
      assert buffer[off..off + len] == buffer[..][off..off + len];
      off := off + len;
    }

    method Deserialize(kind: Kind, memory: bool) returns (r: Outcome)
      requires Valid()
      modifies this
      ensures Valid() && (r, off) == Supplied(Decode(kind, buffer[..], old(off)), old(off), memory)
    {
      match kind
      case IntKind => r := DeserializeInt();
      case LongKind => r := DeserializeLong();
      case BoolKind => r := DeserializeBool();
      case BufferKind => r := DeserializeBuffer(memory);
      case StrKind => r := DeserializeString(memory);
    }
  }

  /** A record read from the bytes another archive wrote, and what follows them: the same
      values come back and exactly the written bytes are consumed. */
  method ReadRecord(ia: IArchive, ghost vs: seq<Value>, kinds: seq<Kind>) returns (os: seq<Outcome>)
    requires ia.Valid() && ia.off == 0 && AllFit(vs) && kinds == Kinds(vs) && EncodeAll(vs) <= ia.buffer[..]
    modifies ia
    ensures os == Backs(vs) && ia.off == |EncodeAll(vs)|
  {
    hide Decode;
    os := [];
    for i := 0 to |kinds|
      invariant ia.Valid() && (os, ia.off) == DecodeAll(kinds[..i], ia.buffer[..])
    {
      assert kinds[..i + 1][..i] == kinds[..i];
      var o := ia.Deserialize(kinds[i], true);
      os := os + [o];
    }
    assert kinds[..|kinds|] == kinds;
    ghost var rest := ia.buffer[|EncodeAll(vs)|..];
    assert ia.buffer[..] == EncodeAll(vs) + rest;
    RecordRoundTrip(vs, rest);
  }
}
