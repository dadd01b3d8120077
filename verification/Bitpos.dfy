/** redisBitpos of redislib-src/kernel/bitops.c: the first set or clear bit, a word
    at a time. A word is its 64 bits, most significant first. */
module Bitpos {
  import opened Bits

  /** None of the first `n` bits is `bit`. */
  ghost predicate NoneBefore(p: seq<bv8>, n: nat, bit: bool) {
    forall i :: 0 <= i < n ==> PadBit(p, i) != bit
  }

  /** The byte all of whose bits are the opposite of `bit`. */
  function SkipByte(bit: bool): bv8 {
    if bit then 0 else 255
  }

  lemma SkipBits(bit: bool, b: bv8, k: nat)
    requires k < 8
    ensures b == SkipByte(bit) ==> BitOf(b, k) != bit
  {
  }

  lemma SomeBit(bit: bool, b: bv8) returns (k: nat)
    requires b != SkipByte(bit)
    ensures k < 8 && BitOf(b, k) == bit
  {
    k := if BitOf(b, 0) == bit then 0 else if BitOf(b, 1) == bit then 1 else if BitOf(b, 2) == bit then 2
      else if BitOf(b, 3) == bit then 3 else if BitOf(b, 4) == bit then 4 else if BitOf(b, 5) == bit then 5
      else if BitOf(b, 6) == bit then 6 else 7;
  }

  /** One more byte without the bit. */
  lemma SkipOne(p: seq<bv8>, i: nat, bit: bool)
    requires i < |p| && p[i] == SkipByte(bit) && NoneBefore(p, 8 * i, bit)
    ensures NoneBefore(p, 8 * (i + 1), bit)
  {
    hide BitOf;
    forall j | 8 * i <= j < 8 * i + 8 ensures PadBit(p, j) != bit {
      assert j / 8 == i;
      SkipBits(bit, p[i], j % 8);
    }
  }

  type Word = w: seq<bool> | |w| == 64 witness seq(64, i => false)

  /** `word <<= 8; word |= b`. */
  function ShiftIn(w: Word, b: bv8): (r: Word) {
    w[8..] + seq(8, k requires 0 <= k < 8 => BitOf(b, k))
  }

  /** The last `8 * j` bits of the word are those of the string from byte `i` on. */
  ghost predicate Loaded(w: Word, p: seq<bv8>, i: nat, j: nat) {
    j <= 8 && forall x :: 8 * i <= x < 8 * i + 8 * j ==> PadBit(p, x) == w[x - 8 * i + 64 - 8 * j]
  }

  lemma LoadNext(w: Word, p: seq<bv8>, i: nat, j: nat, b: bv8)
    requires Loaded(w, p, i, j) && j < 8
    requires b == if i + j < |p| then p[i + j] else 0
    ensures Loaded(ShiftIn(w, b), p, i, j + 1)
  {
    hide BitOf;
    var r := ShiftIn(w, b);
    forall x | 8 * i <= x < 8 * i + 8 * (j + 1) ensures PadBit(p, x) == r[x - 8 * i + 64 - 8 * (j + 1)] {
      if x >= 8 * (i + j) {
        var k := x - 8 * (i + j);
        ByteIndex(i + j, k);
        SkipBits(true, 0, k);
      }
    }
  }

  predicate AllSkip(p: seq<bv8>, i: nat, skip: bv8)
    requires i + 8 <= |p|
  {
    forall j :: i <= j < i + 8 ==> p[j] == skip
  }

  predicate AllZero(w: Word) {
    forall k :: 0 <= k < 64 ==> !w[k]
  }

  /** A word that is not all skip bytes holds the bit. */
  lemma WordHasBit(p: seq<bv8>, i: nat, bit: bool, j: nat, w: Word) returns (k: nat)
    requires i + j < |p| && j < 8 && p[i + j] != SkipByte(bit) && Loaded(w, p, i, 8)
    ensures k < 64 && w[k] == bit
  {
    hide BitOf;
    var n := SomeBit(bit, p[i + j]);
    k := 8 * j + n;
    ByteIndex(i + j, n);
    assert PadBit(p, 8 * i + k) == bit;
  }

  /** redisBitpos of the bytes of `p`, the first of which is at address `addr`. */
  method RedisBitpos(p: seq<bv8>, addr: nat, bit: bool) returns (pos: int)
    ensures -1 <= pos <= 8 * |p|
    ensures pos == -1 ==> bit && NoneBefore(p, 8 * |p|, bit)
    ensures pos >= 0 ==> NoneBefore(p, pos, bit) && PadBit(p, pos) == bit
  {
    hide BitOf, NoneBefore, Loaded, ShiftIn;
    var skipval := SkipByte(bit);
    var i, found := 0, false;
    ghost var at := 0;
    assert NoneBefore(p, 8 * 0, bit) by { Nothing(p, bit); }
    while (addr + i) % 8 != 0 && i < |p|
      invariant 0 <= i <= |p| && NoneBefore(p, 8 * i, bit) && !found
      decreases |p| - i
    {
      if p[i] != skipval {
        found := true;
        break;
      }
      SkipOne(p, i, bit);
      i := i + 1;
    }
    if !found {
      while |p| - i >= 8
        invariant 0 <= i <= |p| && NoneBefore(p, 8 * i, bit)
        invariant !found
      {
        if !AllSkip(p, i, skipval) {
          ghost var j :| i <= j < i + 8 && p[j] != skipval;
          at := j - i;
          found := true;
          break;
        }
        SkipEight(p, i, bit);
        i := i + 8;
      }
    }
    pos := ScanWord(p, i, at, bit, found);
  }

  lemma Nothing(p: seq<bv8>, bit: bool)
    ensures NoneBefore(p, 0, bit)
  {
  }

  lemma SkipEight(p: seq<bv8>, i: nat, bit: bool)
    requires i + 8 <= |p| && AllSkip(p, i, SkipByte(bit)) && NoneBefore(p, 8 * i, bit)
    ensures NoneBefore(p, 8 * (i + 8), bit)
  {
    hide NoneBefore, SkipByte;
    SkipOne(p, i, bit);
    SkipOne(p, i + 1, bit);
    SkipOne(p, i + 2, bit);
    SkipOne(p, i + 3, bit);
    SkipOne(p, i + 4, bit);
    SkipOne(p, i + 5, bit);
    SkipOne(p, i + 6, bit);
    SkipOne(p, i + 7, bit);
  }

  /** The last word, which may reach beyond the string. */
  method ScanWord(p: seq<bv8>, i: nat, ghost at: nat, bit: bool, ghost found: bool) returns (pos: int)
    requires i <= |p| && NoneBefore(p, 8 * i, bit)
    requires if found then i + at < |p| && at < 8 && p[i + at] != SkipByte(bit) else |p| - i < 8
    ensures -1 <= pos <= 8 * |p|
    ensures pos == -1 ==> bit && NoneBefore(p, 8 * |p|, bit)
    ensures pos >= 0 ==> NoneBefore(p, pos, bit) && PadBit(p, pos) == bit
  {
    hide BitOf, ShiftIn, Bit;
    var word: Word := seq(64, _ => false);
    for j := 0 to 8
      invariant Loaded(word, p, i, j)
    {
      var b := if i + j < |p| then p[i + j] else 0;
      LoadNext(word, p, i, j, b);
      word := ShiftIn(word, b);
    }
    assert AtWord(p, i, word) by { FullyLoaded(p, i, word); }
    if bit && AllZero(word) {
      NoSetBit(p, i, at, found, word);
      return -1;
    }
    pos := 8 * i;
    // k is where the one bit of `one` stands.
    for k := 0 to 64
      invariant pos == 8 * i + k && forall m :: 0 <= m < k ==> word[m] != bit
    {
      if word[k] == bit {
        FirstInWord(p, i, word, k, bit);
        return pos;
      }
      pos := pos + 1;
    }
    BitInWord(p, i, at, bit, found, word);
    assert false;
  }

  lemma BitInWord(p: seq<bv8>, i: nat, at: nat, bit: bool, found: bool, word: Word)
    requires i <= |p| && Loaded(word, p, i, 8)
    requires if found then i + at < |p| && at < 8 && p[i + at] != SkipByte(bit) else |p| - i < 8
    requires !(bit && AllZero(word))
    ensures exists k :: 0 <= k < 64 && word[k] == bit
  {
    if found {
      var k := WordHasBit(p, i, bit, at, word);
    } else if !bit {
      assert PadBit(p, 8 * i + 63) == word[63];
    }
  }

  ghost predicate AtWord(p: seq<bv8>, i: nat, w: Word) {
    forall x :: 8 * i <= x < 8 * i + 64 ==> PadBit(p, x) == w[x - 8 * i]
  }

  lemma FullyLoaded(p: seq<bv8>, i: nat, w: Word)
    requires Loaded(w, p, i, 8)
    ensures AtWord(p, i, w)
  {
  }

  lemma NoSetBit(p: seq<bv8>, i: nat, at: nat, found: bool, w: Word)
    requires i <= |p| && Loaded(w, p, i, 8) && AllZero(w) && NoneBefore(p, 8 * i, true)
    requires if found then i + at < |p| && at < 8 && p[i + at] != SkipByte(true) else |p| - i < 8
    ensures NoneBefore(p, 8 * |p|, true)
  {
    if found {
      var k := WordHasBit(p, i, true, at, w);
      assert false;
    }
  }

  lemma FirstInWord(p: seq<bv8>, i: nat, w: Word, k: nat, bit: bool)
    requires i <= |p| && AtWord(p, i, w) && NoneBefore(p, 8 * i, bit) && k < 64
    requires w[k] == bit && forall m :: 0 <= m < k ==> w[m] != bit
    ensures NoneBefore(p, 8 * i + k, bit) && PadBit(p, 8 * i + k) == bit
    ensures 8 * i + k <= 8 * |p|
  {
    forall x | 0 <= x < 8 * i + k ensures PadBit(p, x) != bit {
      assert x >= 8 * i ==> PadBit(p, x) == w[x - 8 * i];
    }
    assert !PadBit(p, 8 * |p|);
  }
}
