/** BITCOUNT and BITPOS over byte and bit ranges (redislib-src/facade/bitmap.c),
    proved against bit-by-bit definitions. */
module BitmapRange {
  import opened Bits
  import Popcount
  import Bitpos

  /** What follows the bitmap in a command: nothing, a start, or a start and an end
      in bytes or bits. */
  datatype Range =
    | Whole
    | From(start: int)
    | Between(start: int, end: int, isbit: bool)

  /** The number of units of a string: bytes, or bits. */
  function Total(s: seq<bv8>, isbit: bool): nat {
    if isbit then 8 * |s| else |s|
  }

  /** A negative index counts from the end; one that is still negative is 0. */
  function Clip(x: int, total: nat): nat {
    var y := if x < 0 then total + x else x;
    if y < 0 then 0 else y
  }

  /** The last unit of a range, -1 only in an empty string. */
  function ClipEnd(x: int, total: nat): int {
    if Clip(x, total) >= total then total - 1 else Clip(x, total)
  }

  // ---- Masks of the first and last byte of a bit range -----------------------------------

  /** The bits of a byte before bit `k`: `~((1 << (8 - k)) - 1) & 0xFF`. */
  function FirstNegMask(k: nat): (m: bv8)
    requires k < 8
  {
    ((!(((1 as bv16) << (8 - k)) - 1)) & 0xFF) as bv8
  }

  /** The bits of a byte after bit `k`: `(1 << (7 - k)) - 1`. */
  function LastNegMask(k: nat): (m: bv8)
    requires k < 8
  {
    (((1 as bv16) << (7 - k)) - 1) as bv8
  }

  lemma FirstMaskBits(k: nat, j: nat)
    requires k < 8 && j < 8
    ensures BitOf(FirstNegMask(k), j) <==> j < k
    ensures FirstNegMask(k) == 0 <==> k == 0
  {
    if k == 0 {} else if k == 1 {} else if k == 2 {} else if k == 3 {}
    else if k == 4 {} else if k == 5 {} else if k == 6 {} else {}
  }

  lemma LastMaskBits(k: nat, j: nat)
    requires k < 8 && j < 8
    ensures BitOf(LastNegMask(k), j) <==> j > k
    ensures LastNegMask(k) == 0 <==> k == 7
  {
    if k == 0 {} else if k == 1 {} else if k == 2 {} else if k == 3 {}
    else if k == 4 {} else if k == 5 {} else if k == 6 {} else {}
  }

  // ---- BITCOUNT -------------------------------------------------------------------------

  /** The set bits among the first `k` of a byte. */
  function Prefix(b: bv8, k: nat): nat
    requires k <= 8
  {
    if k == 0 then 0 else Prefix(b, k - 1) + One(BitOf(b, k - 1))
  }

  lemma {:induction false} PrefixCount(s: seq<bv8>, i: nat, k: nat)
    requires i < |s| && k <= 8
    ensures CountBits(s, 8 * i, 8 * i + k) == Prefix(s[i], k)
  {
    hide BitOf;
    if k > 0 {
      PrefixCount(s, i, k - 1);
      CountStep(s, i, k - 1);
    } else {
      CountStep(s, i, 0);
    }
  }

  lemma PrefixOnes(b: bv8)
    ensures Prefix(b, 8) == Ones(b)
  {
    hide BitOf;
    assert Prefix(b, 0) == 0;
    assert Prefix(b, 1) == Prefix(b, 0) + One(BitOf(b, 0));
    assert Prefix(b, 2) == Prefix(b, 1) + One(BitOf(b, 1));
    assert Prefix(b, 4) == Prefix(b, 2) + One(BitOf(b, 2)) + One(BitOf(b, 3));
    assert Prefix(b, 6) == Prefix(b, 4) + One(BitOf(b, 4)) + One(BitOf(b, 5));
    assert Prefix(b, 8) == Prefix(b, 6) + One(BitOf(b, 6)) + One(BitOf(b, 7));
  }

  lemma PrefixNone(b: bv8)
    ensures Prefix(b, 0) == 0
  {
  }

  /** The bits of `b` from `lo` up to `hi`, and no others. */
  lemma {:induction false} MaskedPrefix(b: bv8, c: bv8, lo: nat, hi: nat, k: nat)
    requires lo <= hi <= 8 && k <= 8
    requires forall j :: 0 <= j < 8 ==> BitOf(c, j) == (lo <= j < hi && BitOf(b, j))
    ensures Prefix(c, k) ==
      (if k <= lo then 0 else if k <= hi then Prefix(b, k) - Prefix(b, lo) else Prefix(b, hi) - Prefix(b, lo))
  {
    hide BitOf;
    if k > 0 {
      MaskedPrefix(b, c, lo, hi, k - 1);
    }
  }

  lemma FirstMaskedCount(s: seq<bv8>, i: nat, k: nat)
    requires i < |s| && k < 8
    ensures Ones(s[i] & FirstNegMask(k)) == CountBits(s, 8 * i, 8 * i + k)
  {
    hide BitOf, FirstNegMask, Ones, CountBits, Prefix;
    var c := s[i] & FirstNegMask(k);
    forall j | 0 <= j < 8 ensures BitOf(c, j) == (0 <= j < k && BitOf(s[i], j)) {
      BitwiseOps(s[i], FirstNegMask(k), j);
      FirstMaskBits(k, j);
    }
    assert Prefix(s[i], 0) == 0 by { PrefixNone(s[i]); }
    MaskedPrefix(s[i], c, 0, k, 8);
    PrefixOnes(c);
    PrefixCount(s, i, k);
  }

  lemma LastMaskedCount(s: seq<bv8>, i: nat, k: nat)
    requires i < |s| && k < 8
    ensures Ones(s[i] & LastNegMask(k)) == CountBits(s, 8 * i + k + 1, 8 * i + 8)
  {
    hide BitOf, LastNegMask, Ones, CountBits, Prefix;
    var c := s[i] & LastNegMask(k);
    forall j | 0 <= j < 8 ensures BitOf(c, j) == (k + 1 <= j < 8 && BitOf(s[i], j)) {
      BitwiseOps(s[i], LastNegMask(k), j);
      LastMaskBits(k, j);
    }
    MaskedPrefix(s[i], c, k + 1, 8, 8);
    PrefixOnes(c);
    PrefixCount(s, i, k + 1);
    PrefixCount(s, i, 8);
    CountSplit(s, 8 * i, 8 * i + k + 1, 8 * i + 8);
  }

  /** The bits BITCOUNT looks at, as a half-open stretch; none when the range is empty. */
  function CountStretch(s: seq<bv8>, r: Range): (b: (nat, nat))
    ensures b.0 <= b.1 <= 8 * |s|
  {
    match r
    case Whole => (0, 8 * |s|)
    case From(start) => (0, 0)
    case Between(start, end, isbit) =>
      var t := Total(s, isbit);
      if start < 0 && end < 0 && start > end then (0, 0)
      else if Clip(start, t) > ClipEnd(end, t) then (0, 0)
      else if isbit then (Clip(start, t), ClipEnd(end, t) + 1)
      else (8 * Clip(start, t), 8 * (ClipEnd(end, t) + 1))
  }

  /** What BITCOUNT answers. */
  function CountAnswer(s: seq<bv8>, r: Range): nat {
    CountBits(s, CountStretch(s, r).0, CountStretch(s, r).1)
  }

  /** An ordinary range counts the bits of its bytes, or its bits, both ends included. One
      that is upside down or starts beyond the end counts none. */
  lemma CountsOrdinary(s: seq<bv8>, start: nat, end: nat)
    ensures start <= end < |s| ==> CountAnswer(s, Between(start, end, false)) == CountBits(s, 8 * start, 8 * end + 8)
    ensures start <= end < 8 * |s| ==> CountAnswer(s, Between(start, end, true)) == CountBits(s, start, end + 1)
    ensures end < start || start >= |s| ==> CountAnswer(s, Between(start, end, false)) == 0
    ensures end < start || start >= 8 * |s| ==> CountAnswer(s, Between(start, end, true)) == 0
    ensures CountAnswer(s, Whole) == CountBits(s, 0, 8 * |s|)
  {
    hide CountBits;
    EmptyCount(s, 0);
  }

  /** Other indices stand for ordinary ones: negative ones count from the end, those
      before the beginning are the first unit, and an end beyond the last unit is the
      last one. */
  lemma CountsIndices(s: seq<bv8>, start: int, end: int, isbit: bool)
    requires !(end < start < 0)
    ensures var t: int := Total(s, isbit);
      var n := CountAnswer(s, Between(start, end, isbit));
      && (-t <= start < 0 ==> n == CountAnswer(s, Between(t + start, end, isbit)))
      && (start < -t ==> n == CountAnswer(s, Between(0, end, isbit)))
      && (-t <= end < 0 ==> n == CountAnswer(s, Between(start, t + end, isbit)))
      && (end < -t ==> n == CountAnswer(s, Between(start, 0, isbit)))
      && (end >= t > 0 ==> n == CountAnswer(s, Between(start, t - 1, isbit)))
  {
    hide CountBits;
  }

  /** The clipping that both commands start with. */
  method ClipRange(start0: int, end0: int, totlen: nat) returns (start: nat, end: int)
    ensures start == Clip(start0, totlen) && end == ClipEnd(end0, totlen)
    ensures -1 <= end < totlen
  {
    var s, e := start0, end0;
    if s < 0 { s := totlen + s; }
    if e < 0 { e := totlen + e; }
    if s < 0 { s := 0; }
    if e < 0 { e := 0; }
    if e >= totlen { e := totlen - 1; }
    start, end := s, e;
  }

  /** BITCOUNT: the number of set bits of the stretch. A start without an end is
      refused before anything is counted. */
  method BitCount(s: seq<bv8>, addr: nat, r: Range) returns (n: nat)
    requires !r.From?
    ensures n == CountAnswer(s, r)
  {
    hide Ones, FirstNegMask, LastNegMask, CountBits, Count, Clip, ClipEnd;
    var start: int, end: int := 0, |s| - 1;
    var firstByteNegMask: bv8, lastByteNegMask: bv8 := 0, 0;
    ghost var lo, hi := 0, 8 * |s|;
    WholeMasks();
    if r.Between? {
      var totlen := |s|;
      start, end := r.start, r.end;
      if start < 0 && end < 0 && start > end {
        EmptyCount(s, 0);
        return 0;
      }
      if r.isbit { totlen := 8 * totlen; }
      start, end := ClipRange(start, end, totlen);
      lo, hi := if r.isbit then start else 8 * start, if r.isbit then end + 1 else 8 * end + 8;
      if r.isbit && start <= end {
        firstByteNegMask := FirstNegMask(start % 8);
        lastByteNegMask := LastNegMask(end % 8);
        start := start / 8;
        end := end / 8;
      }
    }
    if start > end {
      EmptyCount(s, 0);
      return 0;
    }
    n := CountWithin(s, addr, start, end, firstByteNegMask, lastByteNegMask, lo, hi);
  }

  /** Counts the bytes `start` to `end` and takes off what the masks say is too much. */
  method CountWithin(s: seq<bv8>, addr: nat, start: nat, end: nat, firstByteNegMask: bv8, lastByteNegMask: bv8,
                     ghost lo: nat, ghost hi: nat) returns (n: nat)
    requires start <= end < |s| && 8 * start <= lo < 8 * start + 8 && 8 * end < hi <= 8 * end + 8 && lo <= hi
    requires firstByteNegMask == FirstNegMask(lo - 8 * start) && lastByteNegMask == LastNegMask(hi - 1 - 8 * end)
    ensures n == CountBits(s, lo, hi)
  {
    hide Ones, FirstNegMask, LastNegMask, CountBits, Count;
    n := Popcount.RedisPopcount(s[start..end + 1], addr + start);
    CountBytes(s, start, end + 1);
    CountSplit(s, 8 * start, lo, 8 * end + 8);
    CountSplit(s, lo, hi, 8 * end + 8);
    FirstMaskedCount(s, start, lo - 8 * start);
    LastMaskedCount(s, end, hi - 1 - 8 * end);
    ZeroMask(s[start]);
    ZeroMask(s[end]);
    if firstByteNegMask != 0 || lastByteNegMask != 0 {
      var first: bv8, last: bv8 := 0, 0;
      if firstByteNegMask != 0 { first := s[start] & firstByteNegMask; }
      if lastByteNegMask != 0 { last := s[end] & lastByteNegMask; }
      PairCount(first, last);
      var both := Popcount.RedisPopcount([first, last], 0);
      n := n - both;
    }
  }

  lemma ZeroMask(b: bv8)
    ensures b & 0 == 0 && Ones(0) == 0
  {
  }

  /** The masks of a range that starts and ends with whole bytes are zero. */
  lemma WholeMasks()
    ensures FirstNegMask(0) == 0 && LastNegMask(7) == 0
  {
    FirstMaskBits(0, 0);
    LastMaskBits(7, 0);
  }

  lemma EmptyCount(s: seq<bv8>, i: nat)
    requires i <= 8 * |s|
    ensures CountBits(s, i, i) == 0
  {
  }

  lemma PairCount(a: bv8, b: bv8)
    ensures Count([a, b]) == Ones(a) + Ones(b) && Ones(0) == 0
  {
    var p, q := [a], [a, b];
    assert q[..1] == p && p[..0] == [];
    assert Count(p) == Count(p[..0]) + Ones(p[0]);
    assert Count(q) == Count(q[..1]) + Ones(q[1]);
    PrefixOnes(0);
  }

  // ---- BITPOS ---------------------------------------------------------------------------

  /** The bits BITPOS looks at; the stretch is empty when its end is not past its start. */
  function PosStretch(s: seq<bv8>, r: Range): (b: (nat, nat))
    ensures b.1 <= 8 * |s|
  {
    match r
    case Whole => (0, 8 * |s|)
    case From(start) => (8 * Clip(start, |s|), 8 * |s|)
    case Between(start, end, isbit) =>
      var t := Total(s, isbit);
      if isbit then (Clip(start, t), ClipEnd(end, t) + 1) else (8 * Clip(start, t), 8 * (ClipEnd(end, t) + 1))
  }

  /** A negative range that is upside down is empty for BITCOUNT. For BITPOS it is the
      first byte or bit when both ends lie before the beginning. */
  lemma UpsideDown(s: seq<bv8>, start: int, end: int, isbit: bool)
    requires end < start < 0
    ensures var r := Between(start, end, isbit);
      && CountStretch(s, r) == (0, 0)
      && (PosStretch(s, r).0 < PosStretch(s, r).1 <==> |s| > 0 && start + Total(s, isbit) <= 0)
  {
  }

  /** No bit numbered from `lo` up to `hi` is `bit`. */
  ghost predicate NoneIn(s: seq<bv8>, lo: nat, hi: int, bit: bool) {
    forall i :: lo <= i < hi ==> PadBit(s, i) != bit
  }

  /** `pos` is the first of the bits numbered from `lo` up to `hi` that is `bit`, and
      `none` when there is no such bit. */
  ghost predicate FirstOf(s: seq<bv8>, lo: nat, hi: int, bit: bool, none: int, pos: int) {
    if NoneIn(s, lo, hi, bit) then pos == none
    else lo <= pos < hi && PadBit(s, pos) == bit && NoneIn(s, lo, pos, bit)
  }

  /** What BITPOS answers for a bitmap that is not empty. */
  ghost predicate PosAnswer(s: seq<bv8>, bit: bool, r: Range, pos: int) {
    var lo, hi := PosStretch(s, r).0, PosStretch(s, r).1;
    FirstOf(s, lo, hi, bit, if !bit && lo < hi && !r.Between? then 8 * |s| else -1, pos)
  }

  /** In an ordinary range it is the first such bit, and -1 without one. Without an end
      the bitmap is taken to go on with clear bits, unless it ends before the start. */
  lemma FindsOrdinary(s: seq<bv8>, bit: bool, start: nat, end: nat, pos: int)
    requires |s| > 0
    ensures start <= end < |s| ==>
      (PosAnswer(s, bit, Between(start, end, false), pos) <==> FirstOf(s, 8 * start, 8 * end + 8, bit, -1, pos))
    ensures start <= end < 8 * |s| ==>
      (PosAnswer(s, bit, Between(start, end, true), pos) <==> FirstOf(s, start, end + 1, bit, -1, pos))
    ensures end < start || start >= |s| ==> (PosAnswer(s, bit, Between(start, end, false), pos) <==> pos == -1)
    ensures end < start || start >= 8 * |s| ==> (PosAnswer(s, bit, Between(start, end, true), pos) <==> pos == -1)
    ensures start < |s| ==>
      (PosAnswer(s, bit, From(start), pos) <==> FirstOf(s, 8 * start, 8 * |s|, bit, if bit then -1 else 8 * |s|, pos))
    ensures start >= |s| ==> (PosAnswer(s, bit, From(start), pos) <==> pos == -1)
    ensures PosAnswer(s, bit, Whole, pos) <==> FirstOf(s, 0, 8 * |s|, bit, if bit then -1 else 8 * |s|, pos)
  {
    hide PadBit;
  }

  /** Other indices stand for ordinary ones, as for BITCOUNT. */
  lemma FindsIndices(s: seq<bv8>, bit: bool, start: int, end: int, isbit: bool, pos: int)
    requires |s| > 0
    ensures var t: int := Total(s, isbit);
      && (-t <= start < 0 ==> (PosAnswer(s, bit, Between(start, end, isbit), pos) <==> PosAnswer(s, bit, Between(t + start, end, isbit), pos)))
      && (start < -t ==> (PosAnswer(s, bit, Between(start, end, isbit), pos) <==> PosAnswer(s, bit, Between(0, end, isbit), pos)))
      && (-t <= end < 0 ==> (PosAnswer(s, bit, Between(start, end, isbit), pos) <==> PosAnswer(s, bit, Between(start, t + end, isbit), pos)))
      && (end < -t ==> (PosAnswer(s, bit, Between(start, end, isbit), pos) <==> PosAnswer(s, bit, Between(start, 0, isbit), pos)))
      && (end >= t ==> (PosAnswer(s, bit, Between(start, end, isbit), pos) <==> PosAnswer(s, bit, Between(start, t - 1, isbit), pos)))
    ensures -|s| <= start < 0 ==> (PosAnswer(s, bit, From(start), pos) <==> PosAnswer(s, bit, From(|s| + start), pos))
    ensures start < -|s| ==> (PosAnswer(s, bit, From(start), pos) <==> PosAnswer(s, bit, From(0), pos))
  {
    hide FirstOf;
  }

  /** `t` stands for the bytes of `s` from bit `base` on, changed so that the bits
      outside `lo` to `hi` are not `bit`. */
  ghost predicate Window(t: seq<bv8>, s: seq<bv8>, base: nat, lo: nat, hi: nat, bit: bool) {
    forall x :: 0 <= x < 8 * |t| ==> (PadBit(t, x) == bit <==> lo <= base + x < hi && PadBit(s, base + x) == bit)
  }

  /** `[lo, hi)` has none of the bit as far as `end`. */
  ghost predicate ClearTo(s: seq<bv8>, lo: nat, hi: nat, end: nat, bit: bool) {
    forall i :: lo <= i < hi && i < end ==> PadBit(s, i) != bit
  }

  /** What the kernel's answer on a window says of the string. */
  lemma SegmentResult(t: seq<bv8>, s: seq<bv8>, base: nat, lo: nat, hi: nat, bit: bool, pos: int)
    requires Window(t, s, base, lo, hi, bit) && ClearTo(s, lo, hi, base, bit)
    requires -1 <= pos <= 8 * |t|
    requires pos == -1 ==> bit && Bitpos.NoneBefore(t, 8 * |t|, bit)
    requires pos >= 0 ==> Bitpos.NoneBefore(t, pos, bit) && PadBit(t, pos) == bit
    ensures if pos == -1 || pos == 8 * |t| then ClearTo(s, lo, hi, base + 8 * |t|, bit) && bit == (pos == -1)
            else NoneIn(s, lo, base + pos, bit) && PadBit(s, base + pos) == bit && lo <= base + pos < hi
  {
    var n := if pos == -1 then 8 * |t| else pos;
    forall i | lo <= i < hi && i < base + n ensures PadBit(s, i) != bit {
      if i >= base {
        assert PadBit(t, i - base) != bit;
        assert base + (i - base) == i;
      }
    }
  }

  lemma SliceWindow(s: seq<bv8>, a: nat, b: nat, lo: nat, hi: nat, bit: bool)
    requires a <= b <= |s| && lo <= 8 * a && 8 * b <= hi
    ensures Window(s[a..b], s, 8 * a, lo, hi, bit)
  {
    hide BitOf;
    forall x | 0 <= x < 8 * (b - a) ensures PadBit(s[a..b], x) == PadBit(s, 8 * a + x) {
      ByteIndex(a + x / 8, x % 8);
    }
  }

  /** A byte whose bits outside the window are hidden by a mask. */
  function Masked(b: bv8, mask: bv8, bit: bool): bv8 {
    if bit then b & !mask else b | mask
  }

  lemma MaskedBit(b: bv8, mask: bv8, bit: bool, j: nat)
    requires j < 8
    ensures BitOf(Masked(b, mask, bit), j) == bit <==> !BitOf(mask, j) && BitOf(b, j) == bit
  {
    BitwiseOps(b, !mask, j);
    BitwiseOps(mask, 0, j);
    BitwiseOps(b, mask, j);
    hide BitOf;
  }

  lemma ByteWindow(s: seq<bv8>, a: nat, t: bv8, lo: nat, hi: nat, bit: bool)
    requires a < |s|
    requires forall j :: 0 <= j < 8 ==> (BitOf(t, j) == bit <==> lo <= 8 * a + j < hi && BitOf(s[a], j) == bit)
    ensures Window([t], s, 8 * a, lo, hi, bit)
  {
    hide BitOf;
    forall x | 0 <= x < 8
      ensures PadBit([t], x) == bit <==> lo <= 8 * a + x < hi && PadBit(s, 8 * a + x) == bit
    {
      ByteIndex(a, x);
    }
  }

  /** The masks as a window on the first byte, on the last, and on one that is both. */
  lemma FirstWindow(s: seq<bv8>, a: nat, lo: nat, hi: nat, bit: bool)
    requires a < |s| && 8 * a <= lo < 8 * a + 8 && 8 * a + 8 <= hi
    ensures Window([Masked(s[a], FirstNegMask(lo - 8 * a), bit)], s, 8 * a, lo, hi, bit)
  {
    hide BitOf, Masked, FirstNegMask;
    var m := FirstNegMask(lo - 8 * a);
    forall j | 0 <= j < 8
      ensures BitOf(Masked(s[a], m, bit), j) == bit <==> lo <= 8 * a + j < hi && BitOf(s[a], j) == bit
    {
      MaskedBit(s[a], m, bit, j);
      FirstMaskBits(lo - 8 * a, j);
    }
    ByteWindow(s, a, Masked(s[a], m, bit), lo, hi, bit);
  }

  lemma LastWindow(s: seq<bv8>, a: nat, lo: nat, hi: nat, bit: bool)
    requires a < |s| && lo <= 8 * a < hi <= 8 * a + 8
    ensures Window([Masked(s[a], LastNegMask(hi - 1 - 8 * a), bit)], s, 8 * a, lo, hi, bit)
  {
    hide BitOf, Masked, LastNegMask;
    var m := LastNegMask(hi - 1 - 8 * a);
    forall j | 0 <= j < 8
      ensures BitOf(Masked(s[a], m, bit), j) == bit <==> lo <= 8 * a + j < hi && BitOf(s[a], j) == bit
    {
      MaskedBit(s[a], m, bit, j);
      LastMaskBits(hi - 1 - 8 * a, j);
    }
    ByteWindow(s, a, Masked(s[a], m, bit), lo, hi, bit);
  }

  lemma OnlyWindow(s: seq<bv8>, a: nat, lo: nat, hi: nat, bit: bool)
    requires a < |s| && 8 * a <= lo < hi <= 8 * a + 8
    ensures Window([Masked(Masked(s[a], FirstNegMask(lo - 8 * a), bit), LastNegMask(hi - 1 - 8 * a), bit)],
                   s, 8 * a, lo, hi, bit)
  {
    hide BitOf, Masked, LastNegMask, FirstNegMask;
    var m, n := FirstNegMask(lo - 8 * a), LastNegMask(hi - 1 - 8 * a);
    var c := Masked(s[a], m, bit);
    forall j | 0 <= j < 8
      ensures BitOf(Masked(c, n, bit), j) == bit <==> lo <= 8 * a + j < hi && BitOf(s[a], j) == bit
    {
      MaskedBit(s[a], m, bit, j);
      MaskedBit(c, n, bit, j);
      FirstMaskBits(lo - 8 * a, j);
      LastMaskBits(hi - 1 - 8 * a, j);
    }
    ByteWindow(s, a, Masked(c, n, bit), lo, hi, bit);
  }

  /** The search of lbitmap_bitpos up to its label `result`: the position found counts
      from byte `start'`, and `bytes` is what was left to search from there. */
  method Search(s: seq<bv8>, addr: nat, bit: bool, start: nat, end: nat, firstByteNegMask: bv8, lastByteNegMask: bv8,
                ghost lo: nat, ghost hi: nat) returns (pos: int, start': nat, bytes: nat)
    requires start <= end < |s| && 8 * start <= lo < 8 * start + 8 && 8 * end < hi <= 8 * end + 8 && lo < hi
    requires firstByteNegMask == FirstNegMask(lo - 8 * start) && lastByteNegMask == LastNegMask(hi - 1 - 8 * end)
    ensures -1 <= pos <= 8 * bytes && start' + bytes == end + 1
    ensures if pos == -1 || pos == 8 * bytes then NoneIn(s, lo, hi, bit) && bit == (pos == -1)
            else NoneIn(s, lo, 8 * start' + pos, bit) && PadBit(s, 8 * start' + pos) == bit && lo <= 8 * start' + pos < hi
  {
    hide Masked, FirstNegMask, LastNegMask, Window, ClearTo, NoneIn, PadBit, Bitpos.NoneBefore;
    start', bytes := start, end - start + 1;
    MaskZero(lo - 8 * start, hi - 1 - 8 * end);
    ClearStart(s, lo, hi, 8 * start, bit);
    if firstByteNegMask != 0 {
      var tmpchar := Masked(s[start], firstByteNegMask, bit);
      if lastByteNegMask != 0 && bytes == 1 {
        OnlyWindow(s, start, lo, hi, bit);
        tmpchar := Masked(tmpchar, lastByteNegMask, bit);
      } else {
        FirstWindow(s, start, lo, hi, bit);
      }
      pos := Bitpos.RedisBitpos([tmpchar], 0, bit);
      SegmentResult([tmpchar], s, 8 * start, lo, hi, bit, pos);
      ClearEnd(s, lo, hi, 8 * start + 8, bit);
      if bytes == 1 || (pos != -1 && pos != 8) {
        return;
      }
      start', bytes := start' + 1, bytes - 1;
    }
    pos, start', bytes := SearchRest(s, addr, bit, start', end, lastByteNegMask, lo, hi);
  }

  lemma MaskZero(k: nat, m: nat)
    requires k < 8 && m < 8
    ensures FirstNegMask(k) == 0 <==> k == 0
    ensures LastNegMask(m) == 0 <==> m == 7
  {
    FirstMaskBits(k, 0);
    LastMaskBits(m, 0);
  }

  lemma ClearStart(s: seq<bv8>, lo: nat, hi: nat, base: nat, bit: bool)
    requires base <= lo
    ensures ClearTo(s, lo, hi, base, bit)
  {
  }

  lemma ClearEnd(s: seq<bv8>, lo: nat, hi: nat, end: nat, bit: bool)
    ensures ClearTo(s, lo, hi, end, bit) && hi <= end ==> NoneIn(s, lo, hi, bit)
  {
  }

  /** The whole bytes, and the last byte when it has a mask. */
  method SearchRest(s: seq<bv8>, addr: nat, bit: bool, start: nat, end: nat, lastByteNegMask: bv8,
                    ghost lo: nat, ghost hi: nat) returns (pos: int, start': nat, bytes: nat)
    requires start <= end < |s| && lo <= 8 * start && 8 * end < hi <= 8 * end + 8
    requires ClearTo(s, lo, hi, 8 * start, bit) && lastByteNegMask == LastNegMask(hi - 1 - 8 * end)
    ensures -1 <= pos <= 8 * bytes && start' + bytes == end + 1
    ensures if pos == -1 || pos == 8 * bytes then NoneIn(s, lo, hi, bit) && bit == (pos == -1)
            else NoneIn(s, lo, 8 * start' + pos, bit) && PadBit(s, 8 * start' + pos) == bit && lo <= 8 * start' + pos < hi
  {
    hide Masked, FirstNegMask, LastNegMask, Window, ClearTo, NoneIn, PadBit, Bitpos.NoneBefore;
    start', bytes := start, end - start + 1;
    MaskZero(0, hi - 1 - 8 * end);
    ClearEnd(s, lo, hi, 8 * end + 8, bit);
    var curbytes := bytes - (if lastByteNegMask != 0 then 1 else 0);
    if curbytes > 0 {
      var t := s[start'..start' + curbytes];
      SliceWindow(s, start', start' + curbytes, lo, hi, bit);
      pos := Bitpos.RedisBitpos(t, addr + start', bit);
      SegmentResult(t, s, 8 * start', lo, hi, bit, pos);
      if bytes == curbytes || (pos != -1 && pos != 8 * curbytes) {
        return;
      }
      start', bytes := start' + curbytes, bytes - curbytes;
    }
    LastWindow(s, end, lo, hi, bit);
    var tmpchar := Masked(s[end], lastByteNegMask, bit);
    pos := Bitpos.RedisBitpos([tmpchar], 0, bit);
    SegmentResult([tmpchar], s, 8 * end, lo, hi, bit, pos);
  }

  /** BITPOS. An empty bitmap is an endless run of clear bits. Otherwise the answer is
      the first such bit of the stretch; when there is none it is -1, except that clear
      bits are taken to follow a stretch whose end was not given. */
  method BitPos(s: seq<bv8>, addr: nat, bit: bool, r: Range) returns (pos: int)
    ensures |s| == 0 ==> pos == if bit then -1 else 0
    ensures |s| > 0 ==> PosAnswer(s, bit, r, pos)
  {
    hide FirstNegMask, LastNegMask, Clip, ClipEnd, PadBit;
    var start: int, end: int := 0, |s| - 1;
    var firstByteNegMask: bv8, lastByteNegMask: bv8 := 0, 0;
    ghost var lo: int, hi: int := 0, 8 * |s|;
    WholeMasks();
    if !r.Whole? {
      var isbit := r.Between? && r.isbit;
      var totlen := if isbit then 8 * |s| else |s|;
      start, end := ClipRange(r.start, if r.Between? then r.end else -1, totlen);
      LastUnit(|s|);
      lo, hi := if isbit then start else 8 * start, if isbit then end + 1 else 8 * end + 8;
      if isbit && start <= end {
        firstByteNegMask := FirstNegMask(start % 8);
        lastByteNegMask := LastNegMask(end % 8);
        start := start / 8;
        end := end / 8;
      }
    }
    if |s| == 0 {
      return if bit then -1 else 0;
    }
    if start > end {
      return -1;
    }
    var bytes;
    pos, start, bytes := Search(s, addr, bit, start, end, firstByteNegMask, lastByteNegMask, lo, hi);
    if r.Between? && !bit && pos == 8 * bytes {
      return -1;
    }
    if pos != -1 {
      pos := pos + 8 * start;
    }
  }

  lemma LastUnit(n: nat)
    ensures ClipEnd(-1, n) == n - 1
  {
  }
}
