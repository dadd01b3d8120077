/** The bits of a bitmap, as redislib-src/kernel/bitops.c numbers them: bit 0 is
    the most significant bit of the first byte. */
module Bits {

  /** The byte with only bit `k` set. */
  function Mask(k: nat): (m: bv8)
    requires k < 8
  {
    match k
    case 0 => 128
    case 1 => 64
    case 2 => 32
    case 3 => 16
    case 4 => 8
    case 5 => 4
    case 6 => 2
    case 7 => 1
  }

  predicate BitOf(b: bv8, k: nat)
    requires k < 8
  {
    b & Mask(k) != 0
  }

  predicate SingleBit(m: bv8) {
    m == 128 || m == 64 || m == 32 || m == 16 || m == 8 || m == 4 || m == 2 || m == 1
  }

  lemma MaskIsSingle(j: nat)
    requires j < 8
    ensures SingleBit(Mask(j))
  {
  }

  lemma MaskedOps(a: bv8, b: bv8, m: bv8)
    requires SingleBit(m)
    ensures (a & b) & m != 0 <==> a & m != 0 && b & m != 0
    ensures (a | b) & m != 0 <==> a & m != 0 || b & m != 0
    ensures (a ^ b) & m != 0 <==> (a & m != 0) != (b & m != 0)
    ensures !a & m != 0 <==> a & m == 0
  {
  }

  /** Bitwise operators act on each bit. */
  lemma BitwiseOps(a: bv8, b: bv8, j: nat)
    requires j < 8
    ensures BitOf(a & b, j) == (BitOf(a, j) && BitOf(b, j))
    ensures BitOf(a | b, j) == (BitOf(a, j) || BitOf(b, j))
    ensures BitOf(a ^ b, j) == (BitOf(a, j) != BitOf(b, j))
    ensures BitOf(!a, j) == !BitOf(a, j)
  {
    hide Mask;
    MaskIsSingle(j);
    MaskedOps(a, b, Mask(j));
  }

  predicate Bit(s: seq<bv8>, i: nat)
    requires i < 8 * |s|
  {
    BitOf(s[i / 8], i % 8)
  }

  /** A bit of the string, which is taken to go on with zeros. */
  predicate PadBit(p: seq<bv8>, i: nat) {
    i < 8 * |p| && Bit(p, i)
  }

  function One(b: bool): nat {
    if b then 1 else 0
  }

  /** The number of set bits among those numbered `lo` up to, not including, `hi`. */
  function CountBits(s: seq<bv8>, lo: nat, hi: nat): (n: nat)
    requires lo <= hi <= 8 * |s|
    decreases hi - lo
  {
    if lo == hi then 0 else CountBits(s, lo, hi - 1) + One(Bit(s, hi - 1))
  }

  /** The number of set bits of a byte; the table bitsinbyte holds it for each. */
  function Ones(b: bv8): (n: nat)
    ensures n <= 8
  {
    One(BitOf(b, 0)) + One(BitOf(b, 1)) + One(BitOf(b, 2)) + One(BitOf(b, 3)) +
    One(BitOf(b, 4)) + One(BitOf(b, 5)) + One(BitOf(b, 6)) + One(BitOf(b, 7))
  }

  /** The number of set bits of a string of bytes. */
  function Count(s: seq<bv8>): (n: nat) {
    if s == [] then 0 else Count(s[..|s| - 1]) + Ones(s[|s| - 1])
  }

  lemma {:induction false} CountAppend(s: seq<bv8>, t: seq<bv8>)
    ensures Count(s + t) == Count(s) + Count(t)
  {
    if t == [] {
      assert s + t == s;
    } else {
      CountAppend(s, t[..|t| - 1]);
      assert (s + t)[..|s + t| - 1] == s + t[..|t| - 1];
    }
  }

  lemma CountByte(s: seq<bv8>, i: nat)
    requires i < |s|
    ensures CountBits(s, 8 * i, 8 * i + 8) == Ones(s[i])
  {
    hide BitOf, CountBits, One;
    CountStep(s, i, 0);
    CountStep(s, i, 1);
    CountStep(s, i, 2);
    CountStep(s, i, 3);
    CountStep(s, i, 4);
    CountStep(s, i, 5);
    CountStep(s, i, 6);
    CountStep(s, i, 7);
  }

  lemma CountStep(s: seq<bv8>, i: nat, k: nat)
    requires i < |s| && k < 8
    ensures CountBits(s, 8 * i, 8 * i + k + 1) == CountBits(s, 8 * i, 8 * i + k) + One(BitOf(s[i], k))
    ensures CountBits(s, 8 * i, 8 * i) == 0
  {
    hide BitOf;
    ByteIndex(i, k);
  }

  lemma ByteIndex(i: nat, k: nat)
    requires k < 8
    ensures (8 * i + k) / 8 == i && (8 * i + k) % 8 == k
  {
  }

  lemma {:induction false} CountSplit(s: seq<bv8>, lo: nat, mid: nat, hi: nat)
    requires lo <= mid <= hi <= 8 * |s|
    ensures CountBits(s, lo, hi) == CountBits(s, lo, mid) + CountBits(s, mid, hi)
    decreases hi - mid
  {
    if mid < hi {
      CountSplit(s, lo, mid, hi - 1);
    }
  }

  lemma CountLast(s: seq<bv8>, a: nat, b: nat)
    requires a < b <= |s|
    ensures Count(s[a..b]) == Count(s[a..b - 1]) + Ones(s[b - 1])
  {
    hide Ones;
    assert s[a..b][..b - a - 1] == s[a..b - 1];
  }

  /** Counting bytes is counting bits. */
  lemma {:induction false} CountBytes(s: seq<bv8>, a: nat, b: nat)
    requires a <= b <= |s|
    ensures Count(s[a..b]) == CountBits(s, 8 * a, 8 * b)
    decreases b - a
  {
    hide Ones, Bit;
    if a == b {
      assert s[a..b] == [];
    } else {
      hide Count, CountBits;
      CountBytes(s, a, b - 1);
      CountLast(s, a, b);
      CountByte(s, b - 1);
      CountSplit(s, 8 * a, 8 * (b - 1), 8 * b);
    }
  }
}
