/** redisPopcount of redislib-src/kernel/bitops.c, its portable path: 28 bytes at a
    time, as seven words whose bits are added up in parallel. */
module Popcount {
  import opened Bits
  import Words

  // ---- One word --------------------------------------------------------------------

  /** The three steps on one word: bits to pairs, pairs to nibbles, nibbles to bytes. */
  function Pairs(x: bv32): bv32 {
    x - ((x >> 1) & 0x55555555)
  }

  function Nibbles(x: bv32): bv32 {
    (x & 0x33333333) + ((x >> 2) & 0x33333333)
  }

  function Lanes(x: bv32): bv32 {
    (x + (x >> 4)) & 0x0F0F0F0F
  }

  /** The four bytes of a word, least significant first. */
  function L0(x: bv32): bv32 { x & 0xFF }

  function L1(x: bv32): bv32 { (x >> 8) & 0xFF }

  function L2(x: bv32): bv32 { (x >> 16) & 0xFF }

  function L3(x: bv32): bv32 { (x >> 24) & 0xFF }

  predicate LanesUpTo(x: bv32, m: bv32) {
    L0(x) <= m && L1(x) <= m && L2(x) <= m && L3(x) <= m
  }

  function OneIn(x: bv32, m: bv32): bv32 {
    if x & m == 0 then 0 else 1
  }

  function OnesOfByte(x: bv32): bv32 {
    OneIn(x, 128) + OneIn(x, 64) + OneIn(x, 32) + OneIn(x, 16) + OneIn(x, 8) + OneIn(x, 4) + OneIn(x, 2) + OneIn(x, 1)
  }

  lemma PairsLocal(x: bv32)
    ensures L0(Pairs(x)) == L0(Pairs(L0(x))) && L1(Pairs(x)) == L0(Pairs(L1(x)))
    ensures L2(Pairs(x)) == L0(Pairs(L2(x))) && L3(Pairs(x)) == L0(Pairs(L3(x)))
  {
  }

  lemma NibblesLocal(x: bv32)
    ensures L0(Nibbles(x)) == L0(Nibbles(L0(x))) && L1(Nibbles(x)) == L0(Nibbles(L1(x)))
    ensures L2(Nibbles(x)) == L0(Nibbles(L2(x))) && L3(Nibbles(x)) == L0(Nibbles(L3(x)))
  {
  }

  lemma LanesLocal(x: bv32)
    requires x & 0x88888888 == 0
    ensures L0(Lanes(x)) == L0(Lanes(L0(x))) && L1(Lanes(x)) == L0(Lanes(L1(x)))
    ensures L2(Lanes(x)) == L0(Lanes(L2(x))) && L3(Lanes(x)) == L0(Lanes(L3(x)))
  {
  }

  lemma NibblesSmall(x: bv32)
    ensures Nibbles(Pairs(x)) & 0x88888888 == 0
  {
  }

  lemma ByteOnes(x: bv32)
    requires x <= 255
    ensures L0(Lanes(L0(Nibbles(L0(Pairs(x)))))) == OnesOfByte(x) <= 8
  {
  }

  function Swar(x: bv32): bv32 {
    Lanes(Nibbles(Pairs(x)))
  }

  lemma ByteRange(x: bv32)
    ensures L0(x) <= 255 && L1(x) <= 255 && L2(x) <= 255 && L3(x) <= 255
  {
  }

  /** Each byte of the result is the number of bits set in that byte of the word. */
  lemma SwarLanes(x: bv32)
    ensures L0(Swar(x)) == OnesOfByte(L0(x)) && L1(Swar(x)) == OnesOfByte(L1(x))
    ensures L2(Swar(x)) == OnesOfByte(L2(x)) && L3(Swar(x)) == OnesOfByte(L3(x))
    ensures LanesUpTo(Swar(x), 8)
  {
    PairsLocal(x);
    NibblesLocal(Pairs(x));
    NibblesSmall(x);
    LanesLocal(Nibbles(Pairs(x)));
    ByteRange(x);
    ByteOnes(L0(x));
    ByteOnes(L1(x));
    ByteOnes(L2(x));
    ByteOnes(L3(x));
    hide Pairs, Nibbles, Lanes, OnesOfByte, L0, L1, L2, L3;
  }

  /** The number a word stands for. */
  function NumberOf(x: bv32): (n: nat) {
    L0(x) as nat + 0x100 * (L1(x) as nat) + 0x1_0000 * (L2(x) as nat) + 0x100_0000 * (L3(x) as nat)
  }

  /** Four bytes read as a little-endian word. */
  function Load(a: bv8, b: bv8, c: bv8, d: bv8): bv32 {
    (a as bv32) | ((b as bv32) << 8) | ((c as bv32) << 16) | ((d as bv32) << 24)
  }

  lemma LoadLanes(a: bv8, b: bv8, c: bv8, d: bv8)
    ensures var x := Load(a, b, c, d);
      L0(x) == a as bv32 && L1(x) == b as bv32 && L2(x) == c as bv32 && L3(x) == d as bv32
  {
  }

  lemma OnesAsNumber(b: bv8)
    ensures OnesOfByte(b as bv32) as nat == Ones(b)
  {
    OnesInt(b as bv32);
    CastBits(b);
    hide OnesOfByte;
  }

  lemma CastBits(b: bv8)
    ensures OneInt(b as bv32, 128) == One(BitOf(b, 0)) && OneInt(b as bv32, 64) == One(BitOf(b, 1))
    ensures OneInt(b as bv32, 32) == One(BitOf(b, 2)) && OneInt(b as bv32, 16) == One(BitOf(b, 3))
    ensures OneInt(b as bv32, 8) == One(BitOf(b, 4)) && OneInt(b as bv32, 4) == One(BitOf(b, 5))
    ensures OneInt(b as bv32, 2) == One(BitOf(b, 6)) && OneInt(b as bv32, 1) == One(BitOf(b, 7))
  {
  }

  function OneInt(x: bv32, m: bv32): nat {
    if x & m == 0 then 0 else 1
  }

  lemma OnesInt(x: bv32)
    ensures OnesOfByte(x) as nat == OneInt(x, 128) + OneInt(x, 64) + OneInt(x, 32) + OneInt(x, 16)
      + OneInt(x, 8) + OneInt(x, 4) + OneInt(x, 2) + OneInt(x, 1)
  {
  }

  /** A word after the three steps holds the bit counts of its four bytes. */
  lemma WordCounts(a: bv8, b: bv8, c: bv8, d: bv8)
    ensures NumberOf(Swar(Load(a, b, c, d))) ==
      Ones(a) + 0x100 * Ones(b) + 0x1_0000 * Ones(c) + 0x100_0000 * Ones(d)
  {
    hide Swar, Load, L0, L1, L2, L3, OnesOfByte, Ones;
    var x := Load(a, b, c, d);
    SwarLanes(x);
    LoadLanes(a, b, c, d);
    OnesAsNumber(a);
    OnesAsNumber(b);
    OnesAsNumber(c);
    OnesAsNumber(d);
  }

  // ---- Seven words -------------------------------------------------------------------

  /** The arithmetic of the 28-byte step, on 32-bit words: the sum of seven words
      never carries from byte to byte, and the multiplication gathers the sum of the
      four bytes in the top one. */
  lemma Gather(l0: nat, l1: nat, l2: nat, l3: nat)
    requires l0 <= 56 && l1 <= 56 && l2 <= 56 && l3 <= 56
    ensures var sum := (l0 + 0x100 * l1 + 0x1_0000 * l2 + 0x100_0000 * l3) % 0x1_0000_0000;
      sum * 0x01010101 % 0x1_0000_0000 / 0x100_0000 == l0 + l1 + l2 + l3
  {
    var sum := l0 + 0x100 * l1 + 0x1_0000 * l2 + 0x100_0000 * l3;
    var low := l0 + 0x100 * (l0 + l1) + 0x1_0000 * (l0 + l1 + l2);
    var high := l1 + l2 + l3 + 0x100 * (l2 + l3) + 0x1_0000 * l3;
    var t := l0 + l1 + l2 + l3;
    Words.ModUnique(sum * 0x01010101, 0x1_0000_0000, high, 0x100_0000 * t + low);
    Words.ModUnique(0x100_0000 * t + low, 0x100_0000, t, low);
    Words.ModUnique(sum, 0x1_0000_0000, 0, sum);
    assert sum * 0x01010101 == low + 0x100_0000 * (l0 + l1 + l2 + l3) + 0x1_0000_0000 * high;
  }

  function WordAt(p: seq<bv8>, at: nat): bv32
    requires at + 4 <= |p|
  {
    Load(p[at], p[at + 1], p[at + 2], p[at + 3])
  }

  function OnesAt(p: seq<bv8>, at: nat): (n: nat)
    requires at < |p|
    ensures n <= 8
  {
    Ones(p[at])
  }

  function Column(p: seq<bv8>, at: nat): (n: nat)
    requires at + 25 <= |p|
    ensures n <= 56
  {
    OnesAt(p, at) + OnesAt(p, at + 4) + OnesAt(p, at + 8) + OnesAt(p, at + 12) + OnesAt(p, at + 16) + OnesAt(p, at + 20) + OnesAt(p, at + 24)
  }

  lemma CountFour(p: seq<bv8>, at: nat)
    requires at + 4 <= |p|
    ensures Count(p[..at + 4]) == Count(p[..at]) + OnesAt(p, at) + OnesAt(p, at + 1) + OnesAt(p, at + 2) + OnesAt(p, at + 3)
  {
    hide OnesAt;
    CountNext(p, at);
    CountNext(p, at + 1);
    CountNext(p, at + 2);
    CountNext(p, at + 3);
  }

  lemma CountNext(p: seq<bv8>, at: nat)
    requires at < |p|
    ensures Count(p[..at + 1]) == Count(p[..at]) + OnesAt(p, at)
  {
    hide Ones;
    assert p[..at + 1][..at] == p[..at];
  }

  lemma WordAtCounts(p: seq<bv8>, at: nat)
    requires at + 4 <= |p|
    ensures NumberOf(Swar(WordAt(p, at))) ==
      OnesAt(p, at) + 0x100 * OnesAt(p, at + 1) + 0x1_0000 * OnesAt(p, at + 2) + 0x100_0000 * OnesAt(p, at + 3)
  {
    hide Ones, Swar, NumberOf, Load;
    WordCounts(p[at], p[at + 1], p[at + 2], p[at + 3]);
  }

  lemma SumColumns(p: seq<bv8>, i: nat)
    requires i + 28 <= |p|
    ensures NumberOf(Swar(WordAt(p, i))) + NumberOf(Swar(WordAt(p, i + 4))) + NumberOf(Swar(WordAt(p, i + 8)))
      + NumberOf(Swar(WordAt(p, i + 12))) + NumberOf(Swar(WordAt(p, i + 16))) + NumberOf(Swar(WordAt(p, i + 20)))
      + NumberOf(Swar(WordAt(p, i + 24)))
      == Column(p, i) + 0x100 * Column(p, i + 1) + 0x1_0000 * Column(p, i + 2) + 0x100_0000 * Column(p, i + 3)
  {
    hide OnesAt, Swar, NumberOf, WordAt;
    WordAtCounts(p, i);
    WordAtCounts(p, i + 4);
    WordAtCounts(p, i + 8);
    WordAtCounts(p, i + 12);
    WordAtCounts(p, i + 16);
    WordAtCounts(p, i + 20);
    WordAtCounts(p, i + 24);
  }

  lemma CountColumns(p: seq<bv8>, i: nat)
    requires i + 28 <= |p|
    ensures Count(p[..i + 28]) == Count(p[..i]) + Column(p, i) + Column(p, i + 1) + Column(p, i + 2) + Column(p, i + 3)
  {
    hide OnesAt, Count;
    CountFour(p, i);
    CountFour(p, i + 4);
    CountFour(p, i + 8);
    CountFour(p, i + 12);
    CountFour(p, i + 16);
    CountFour(p, i + 20);
    CountFour(p, i + 24);
  }

  /** redisPopcount of the bytes of `p`, the first of which is at address `addr`. */
  method RedisPopcount(p: seq<bv8>, addr: nat) returns (bits: nat)
    ensures bits == Count(p)
  {
    hide Ones, Swar, NumberOf, Load;
    var i := 0;
    bits := 0;
    while (addr + i) % 4 != 0 && i < |p|
      decreases |p| - i
      invariant 0 <= i <= |p| && bits == Count(p[..i])
    {
      CountNext(p, i);
      bits := bits + Ones(p[i]);
      i := i + 1;
    }
    while |p| - i >= 28
      invariant 0 <= i <= |p| && bits == Count(p[..i])
    {
      var step := SevenWords(p, i);
      bits := bits + step;
      i := i + 28;
    }
    while i < |p|
      invariant 0 <= i <= |p| && bits == Count(p[..i])
    {
      CountNext(p, i);
      bits := bits + Ones(p[i]);
      i := i + 1;
    }
    assert p[..i] == p;
  }

  /** The body of its 28-byte loop. */
  method SevenWords(p: seq<bv8>, i: nat) returns (bits: nat)
    requires i + 28 <= |p|
    ensures bits + Count(p[..i]) == Count(p[..i + 28])
  {
    hide OnesAt, Swar, NumberOf, WordAt, Count, Column;
    var aux1, aux2, aux3, aux4 := WordAt(p, i), WordAt(p, i + 4), WordAt(p, i + 8), WordAt(p, i + 12);
    var aux5, aux6, aux7 := WordAt(p, i + 16), WordAt(p, i + 20), WordAt(p, i + 24);
    var sum := (NumberOf(Swar(aux1)) + NumberOf(Swar(aux2)) + NumberOf(Swar(aux3)) + NumberOf(Swar(aux4))
      + NumberOf(Swar(aux5)) + NumberOf(Swar(aux6)) + NumberOf(Swar(aux7))) % 0x1_0000_0000;
    bits := sum * 0x01010101 % 0x1_0000_0000 / 0x100_0000;
    SumColumns(p, i);
    CountColumns(p, i);
    Gather(Column(p, i), Column(p, i + 1), Column(p, i + 2), Column(p, i + 3));
  }
}
