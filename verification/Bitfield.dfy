/** Integer fields of a bitmap at any bit offset: the setters, getters and overflow
    checks of redislib-src/kernel/bitops.c. Machine integers are ints in range,
    and every conversion and wrap-around is written out. */
module Bitfield {
  import opened Bits
  import opened Modular
  import Words

  const U64: nat := 0x1_0000_0000_0000_0000
  const I64_MAX: int := 0x7FFF_FFFF_FFFF_FFFF
  const I64_MIN: int := -0x8000_0000_0000_0000

  /** A 64-bit pattern read as a signed number. */
  function ToI64(x: int): (r: int)
    ensures I64_MIN <= r <= I64_MAX
  {
    (x - I64_MIN) % U64 + I64_MIN
  }

  function ToU64(x: int): (r: nat)
    ensures r < U64
  {
    x % U64
  }

  /** Bit `k` of a number, the least significant being bit 0. */
  predicate NumBit(v: nat, k: nat) {
    v / Words.Pow2(k) % 2 == 1
  }

  /** The `n` bits from `off` on, the first being the most significant. */
  function FieldValue(p: seq<bv8>, off: nat, n: nat): (v: nat) {
    if n == 0 then 0 else 2 * FieldValue(p, off, n - 1) + One(PadBit(p, off + n - 1))
  }

  lemma {:induction false} FieldBound(p: seq<bv8>, off: nat, n: nat)
    ensures FieldValue(p, off, n) < Words.Pow2(n)
  {
    if n > 0 {
      FieldBound(p, off, n - 1);
    }
  }

  /** `now` is `was` with the low `n` bits of `v` at `off`, and no other bit changed. */
  ghost predicate FieldWritten(was: seq<bv8>, now: seq<bv8>, off: nat, n: nat, v: nat) {
    && |now| == |was|
    && forall i :: 0 <= i < 8 * |was| ==>
        PadBit(now, i) == if off <= i < off + n then NumBit(v, n - 1 - (i - off)) else PadBit(was, i)
  }

  /** The bits of a field's number are those of the bitmap, the first being the most
      significant. */
  lemma {:induction false} FieldBits(p: seq<bv8>, off: nat, n: nat, i: nat)
    requires i < n
    ensures NumBit(FieldValue(p, off, n), n - 1 - i) <==> PadBit(p, off + i)
  {
    hide PadBit;
    var v, b := FieldValue(p, off, n - 1), One(PadBit(p, off + n - 1));
    if i == n - 1 {
      assert Words.Pow2(0) == 1;
    } else {
      FieldBits(p, off, n - 1, i);
      var k := n - 2 - i;
      assert Words.Pow2(k + 1) == 2 * Words.Pow2(k);
      hide Words.Pow2, FieldValue;
      HigherBit(v, b, Words.Pow2(k));
    }
  }

  lemma HigherBit(v: nat, b: nat, p: nat)
    requires b < 2 && p > 0
    ensures (2 * v + b) / (2 * p) == v / p
  {
    var q, r := v / p, v % p;
    assert v == p * q + r;
    TwiceSum(p, q, r, b);
    Words.ModUnique(2 * v + b, 2 * p, q, 2 * r + b);
    assert (2 * v + b) == 2 * p * ((2 * v + b) / (2 * p)) + (2 * v + b) % (2 * p);
    SameQuotient(2 * p, (2 * v + b) / (2 * p), q);
  }

  lemma TwiceSum(p: nat, q: nat, r: nat, b: nat)
    ensures 2 * (p * q + r) + b == 2 * p * q + (2 * r + b)
  {
  }

  lemma SameQuotient(m: nat, a: nat, b: nat)
    requires m > 0 && m * a == m * b
    ensures a == b
  {
    if a < b {
      Positive(m, a, b);
    } else if b < a {
      Positive(m, b, a);
    }
  }

  lemma Positive(m: nat, a: nat, b: nat)
    requires m > 0 && a < b
    ensures m * a < m * b
  {
  }

  lemma HalfStep(v: nat, k: nat, j: nat)
    ensures v / Words.Pow2(k) % Words.Pow2(j + 1) == 2 * (v / Words.Pow2(k + 1) % Words.Pow2(j)) + One(NumBit(v, k))
  {
    var p := Words.Pow2(k);
    assert Words.Pow2(k + 1) == 2 * p && Words.Pow2(j + 1) == 2 * Words.Pow2(j);
    HalfOf(v, p);
    hide Words.Pow2;
    RemainderStep(v / p, Words.Pow2(j));
  }

  lemma RemainderStep(x: nat, m: nat)
    requires m > 0
    ensures x % (2 * m) == 2 * (x / 2 % m) + x % 2
  {
    var h, b := x / 2, x % 2;
    var q, r := h / m, h % m;
    assert h == m * q + r;
    Doubling(m, q);
    Words.ModUnique(x, 2 * m, q, 2 * r + b);
  }

  lemma Doubling(m: nat, q: nat)
    ensures (2 * m) * q == 2 * (m * q)
  {
  }

  lemma HalfOf(v: nat, p: nat)
    requires p > 0
    ensures v / (2 * p) == v / p / 2
  {
    var q, r := v / p, v % p;
    var h, b := q / 2, q % 2;
    assert v == p * q + r;
    assert p * q == p * (2 * h + b);
    Spread(p, h, b);
    BitTimes(p, b);
    Words.ModUnique(v, 2 * p, h, p * b + r);
  }

  lemma Spread(p: nat, h: nat, b: nat)
    ensures p * (2 * h + b) == (2 * p) * h + p * b
  {
  }

  lemma BitTimes(p: nat, b: nat)
    requires b < 2
    ensures p * b <= p
  {
  }

  /** What was written is what is read: the value modulo the width. */
  lemma {:induction false} FieldReadBack(was: seq<bv8>, now: seq<bv8>, off: nat, n: nat, v: nat, j: nat)
    requires FieldWritten(was, now, off, n, v) && off + n <= 8 * |was| && j <= n
    ensures FieldValue(now, off, j) == v / Words.Pow2(n - j) % Words.Pow2(j)
  {
    if j > 0 {
      FieldReadBack(was, now, off, n, v, j - 1);
      HalfStep(v, n - j, j - 1);
      assert PadBit(now, off + j - 1) == NumBit(v, n - j);
    } else {
      assert Words.Pow2(0) == 1;
    }
  }

  lemma FieldRoundTrip(was: seq<bv8>, now: seq<bv8>, off: nat, n: nat, v: nat)
    requires FieldWritten(was, now, off, n, v) && off + n <= 8 * |was|
    ensures FieldValue(now, off, n) == v % Words.Pow2(n)
  {
    FieldReadBack(was, now, off, n, v, n);
    assert Words.Pow2(0) == 1;
  }

  /** A field that shares no bit with the one written keeps its value. */
  lemma {:induction false} FieldApart(was: seq<bv8>, now: seq<bv8>, off: nat, n: nat, v: nat, o: nat, m: nat)
    requires FieldWritten(was, now, off, n, v) && (o + m <= off || off + n <= o)
    ensures FieldValue(now, o, m) == FieldValue(was, o, m)
  {
    if m > 0 {
      FieldApart(was, now, off, n, v, o, m - 1);
      assert o + m - 1 < 8 * |was| ==> PadBit(now, o + m - 1) == PadBit(was, o + m - 1);
    }
  }

  // ---- Setting and getting -----------------------------------------------------------

  /** `byteval &= ~(1 << bit); byteval |= bitval << bit`. */
  function WithBit(b: bv8, k: nat, on: bool): bv8
    requires k < 8
  {
    (b & !Mask(k)) | (if on then Mask(k) else 0)
  }

  lemma WithBitBits(b: bv8, k: nat, on: bool, j: nat)
    requires k < 8 && j < 8
    ensures BitOf(WithBit(b, k, on), j) == if j == k then on else BitOf(b, j)
  {
  }

  lemma BitPut(was: seq<bv8>, i: nat, on: bool, x: nat)
    requires i < 8 * |was| && x < 8 * |was|
    ensures PadBit(was[i / 8 := WithBit(was[i / 8], i % 8, on)], x) == if x == i then on else PadBit(was, x)
  {
    hide BitOf, WithBit;
    WithBitBits(was[i / 8], i % 8, on, x % 8);
    assert x == 8 * (x / 8) + x % 8;
  }

  /** One round of the setter: bit `i` becomes `on`. */
  method PutBit(p: array<bv8>, i: nat, on: bool)
    requires i < 8 * p.Length
    modifies p
    ensures forall x :: 0 <= x < 8 * p.Length ==> PadBit(p[..], x) == if x == i then on else PadBit(old(p[..]), x)
  {
    hide WithBit, PadBit;
    ghost var was := p[..];
    var byte, bit := i / 8, i % 8;
    p[byte] := WithBit(p[byte], bit, on);
    forall x | 0 <= x < 8 * p.Length ensures PadBit(p[..], x) == if x == i then on else PadBit(was, x) {
      BitPut(was, i, on, x);
      assert p[..] == was[i / 8 := WithBit(was[i / 8], i % 8, on)];
    }
  }

  method SetUnsigned(p: array<bv8>, offset: nat, bits: nat, value: nat)
    requires offset + bits <= 8 * p.Length && bits <= 64
    modifies p
    ensures FieldWritten(old(p[..]), p[..], offset, bits, value)
  {
    hide PadBit, NumBit;
    ghost var was := p[..];
    for j := 0 to bits
      invariant forall x :: 0 <= x < 8 * p.Length ==>
        PadBit(p[..], x) == if offset <= x < offset + j then NumBit(value, bits - 1 - (x - offset)) else PadBit(was, x)
    {
      var bitval := NumBit(value, bits - 1 - j);
      PutBit(p, offset + j, bitval);
    }
  }

  method SetSigned(p: array<bv8>, offset: nat, bits: nat, value: int)
    requires offset + bits <= 8 * p.Length && bits <= 64
    modifies p
    ensures FieldWritten(old(p[..]), p[..], offset, bits, ToU64(value))
  {
    SetUnsigned(p, offset, bits, ToU64(value));
  }

  method GetUnsigned(p: seq<bv8>, offset: nat, bits: nat) returns (value: nat)
    requires offset + bits <= 8 * |p| && bits <= 64
    ensures value == FieldValue(p, offset, bits) < Words.Pow2(bits)
  {
    hide BitOf, Words.Pow2;
    value := 0;
    for j := 0 to bits
      invariant value == FieldValue(p, offset, j)
    {
      var i := offset + j;
      var bitval := One(BitOf(p[i / 8], i % 8));
      value := 2 * value + bitval;
    }
    FieldBound(p, offset, bits);
  }

  /** A field read as two's complement. */
  function SignedValue(v: nat, bits: nat): int
    requires bits > 0
  {
    if v < Words.Pow2(bits - 1) then v else v - Words.Pow2(bits)
  }

  method GetSigned(p: seq<bv8>, offset: nat, bits: nat) returns (value: int)
    requires offset + bits <= 8 * |p| && 1 <= bits <= 64
    ensures value == SignedValue(FieldValue(p, offset, bits), bits)
  {
    hide Words.Pow2, FieldValue;
    var u := GetUnsigned(p, offset, bits);
    Powers(bits);
    value := ToI64(u);
    if bits < 64 && NumBit(u, bits - 1) {
      // The bits added are clear in u, so this is the bitwise or.
      value := ToI64(u + (U64 - Words.Pow2(bits)));
    }
    TopBit(u, bits);
  }

  lemma {:induction false} PowUpTo64(k: nat)
    requires k <= 64
    ensures Words.Pow2(k) * Words.Pow2(64 - k) == U64 && Words.Pow2(k) <= U64
  {
    if k == 0 {
      Pow64();
    } else {
      PowUpTo64(k - 1);
      var a, b := Words.Pow2(k - 1), Words.Pow2(64 - k);
      assert Words.Pow2(64 - (k - 1)) == 2 * b && Words.Pow2(k) == 2 * a;
      hide Words.Pow2;
      Exchange(a, b);
      AtLeast(2 * a, b);
    }
  }

  lemma Exchange(a: nat, b: nat)
    ensures (2 * a) * b == a * (2 * b)
  {
  }

  lemma AtLeast(a: nat, b: nat)
    requires b >= 1
    ensures a <= a * b
  {
  }

  lemma Pow64()
    ensures Words.Pow2(64) == U64 && Words.Pow2(0) == 1
  {
    assert Words.Pow2(0) == 1;
    assert Words.Pow2(4) == 16;
    Words.Pow2Add(4, 4);
    hide Words.Pow2;
    Words.Pow2Add(8, 8);
    Words.Pow2Add(16, 16);
    Words.Pow2Add(32, 32);
  }

  lemma Powers(bits: nat)
    requires 1 <= bits <= 64
    ensures Words.Pow2(bits) == 2 * Words.Pow2(bits - 1) && 1 <= Words.Pow2(bits - 1) && Words.Pow2(bits) <= U64
    ensures bits == 64 ==> Words.Pow2(bits) == U64
    ensures bits < 64 ==> 2 * Words.Pow2(bits) <= U64
  {
    PowUpTo64(bits);
    Pow64();
    if bits < 64 {
      PowUpTo64(bits + 1);
    }
  }

  lemma TopBit(u: nat, bits: nat)
    requires 1 <= bits && u < Words.Pow2(bits)
    ensures NumBit(u, bits - 1) <==> u >= Words.Pow2(bits - 1)
  {
    var h := Words.Pow2(bits - 1);
    assert Words.Pow2(bits) == 2 * h;
    if u >= h {
      Words.ModUnique(u, h, 1, u - h);
    } else {
      Words.ModUnique(u, h, 0, u);
    }
  }

  // ---- Overflow ------------------------------------------------------------------------

  datatype Overflow = Wrap | Sat | Fail

  /** The number of `bits` bits, in two's complement, that `x` wraps around to. */
  function WrapSigned(x: int, bits: nat): (r: int)
    requires bits >= 1
  {
    (x + Words.Pow2(bits - 1)) % Words.Pow2(bits) - Words.Pow2(bits - 1)
  }

  /** It is the one number in range that differs from `x` by a multiple of 2^bits. */
  lemma WrapMeaning(x: int, bits: nat)
    requires bits >= 1
    ensures -(Words.Pow2(bits - 1) as int) <= WrapSigned(x, bits) < Words.Pow2(bits - 1)
    ensures (WrapSigned(x, bits) - x) % Words.Pow2(bits) == 0
  {
    var h, m := Words.Pow2(bits - 1), Words.Pow2(bits);
    assert m == 2 * h;
    hide Words.Pow2;
    var q, r := (x + h) / m, (x + h) % m;
    assert x + h == m * q + r;
    assert WrapSigned(x, bits) - x == -(m * q);
    Negated(m, q);
    Words.ModUnique(-(m * q), m, -q, 0);
  }

  lemma Negated(m: int, q: int)
    ensures -(m * q) == m * -q
  {
  }

  /** Two's complement, likewise. */
  lemma SignedMeaning(v: nat, bits: nat)
    requires bits >= 1 && v < Words.Pow2(bits)
    ensures -(Words.Pow2(bits - 1) as int) <= SignedValue(v, bits) < Words.Pow2(bits - 1)
    ensures SignedValue(v, bits) == v || SignedValue(v, bits) == v - Words.Pow2(bits)
  {
    assert Words.Pow2(bits) == 2 * Words.Pow2(bits - 1);
  }

  lemma ToI64Small(x: int)
    requires I64_MIN <= x <= I64_MAX
    ensures ToI64(x) == x
  {
  }

  lemma ToI64High(x: int)
    requires I64_MAX < x <= I64_MAX + U64
    ensures ToI64(x) == x - U64
  {
  }

  lemma ToI64Wraps(x: int)
    ensures ToI64(x % U64) == ToI64(x)
  {
    var q := x / U64;
    Periodic(x % U64 - I64_MIN, q, U64);
  }

  /** checkUnsignedBitfieldOverflow. Up to 63 bits it answers 0 exactly when value and sum
      fit. With 64 bits, which no caller asks for, the room left does not fit a signed
      number: then every increment of a value below 2^63 and every decrement of one above
      counts as overflow, and wrapping shifts by 64, so its limit may be anything. */
  method CheckUnsigned(value: nat, incr: int, bits: nat, owtype: Overflow) returns (r: int, limit: nat)
    requires value < U64 && I64_MIN <= incr <= I64_MAX && 1 <= bits <= 64
    ensures var max := Words.Pow2(bits) - 1;
      && (bits <= 63 ==> (r == 0 <==> value <= max && 0 <= value + incr <= max))
      && (bits == 64 ==> (r == 0 <==>
          || incr == 0
          || (0 < incr && value > I64_MAX && value + incr <= max)
          || (incr < 0 && value <= I64_MAX + 1 && 0 <= value + incr)))
      && (bits <= 63 && owtype == Wrap && r != 0 ==> r == 1 && limit == (value + incr) % Words.Pow2(bits))
      && (bits <= 63 && owtype != Wrap && r != 0 ==> r == if value <= max && value + incr < 0 then -1 else 1)
      && (bits == 64 && owtype != Wrap && r != 0 ==> r == if incr < 0 then -1 else 1)
      && (owtype == Sat && r != 0 ==> limit == if r == 1 then max else 0)
  {
    hide Words.Pow2, ToI64, ToU64;
    Powers(bits);
    var max: int, v: int := Words.Pow2(bits) - 1, value;
    var maxincr := ToI64(ToU64(max - v));
    var minincr := ToI64(ToU64(-v));
    if bits == 64 {
      FullIncrement(v);
    } else {
      MaxIncrement(max, v);
    }
    r, limit := 0, 0;
    if value > max || (incr > 0 && incr > maxincr) {
      if owtype == Wrap {
        limit := Masked(value, incr, bits);
      } else if owtype == Sat {
        limit := max;
      }
      r := 1;
    } else if incr < 0 && incr < minincr {
      if owtype == Wrap {
        limit := Masked(value, incr, bits);
        r := 1;
      } else {
        limit := 0;
        r := -1;
      }
    }
  }

  /** The wrapped sum, its mask made by a shift that is undefined for 64 bits. */
  method Masked(value: nat, incr: int, bits: nat) returns (limit: nat)
    requires bits <= 64
    ensures bits <= 63 ==> limit == (value + incr) % Words.Pow2(bits)
  {
    if bits == 64 {
      return 0;   // some number
    }
    MaskedSum(value + incr, bits);
    limit := ToU64(value + incr) % Words.Pow2(bits);
  }

  lemma FullIncrement(value: int)
    requires 0 <= value < U64
    ensures ToI64(ToU64(U64 - 1 - value)) == if value > I64_MAX then U64 - 1 - value else -1 - value
    ensures ToI64(ToU64(-value)) == if value <= I64_MAX + 1 then -value else U64 - value
  {
  }

  lemma MaxIncrement(max: int, value: int)
    requires 0 <= max <= I64_MAX && 0 <= value < U64
    ensures value <= max ==> ToI64(ToU64(max - value)) == max - value && ToI64(ToU64(-value)) == -value
  {
    if value <= max {
      ToI64Wraps(max - value);
      ToI64Wraps(-value);
      ToI64Small(max - value);
      ToI64Small(-value);
    }
  }

  /** Masking the low bits of a 64-bit sum keeps the sum modulo the width. */
  lemma MaskedSum(x: int, bits: nat)
    requires bits <= 64
    ensures ToU64(x) % Words.Pow2(bits) == x % Words.Pow2(bits)
  {
    PowUpTo64(bits);
    ModOfMod(x, Words.Pow2(bits), Words.Pow2(64 - bits));
  }

  /** The value a sum of two signed numbers wraps around to, bit operations and all. */
  function WrapResult(value: int, incr: int, bits: nat): int
    requires 1 <= bits <= 64
  {
    var c := ToU64(ToU64(value) + ToU64(incr));
    if bits == 64 then ToI64(c)
    else if NumBit(c, bits - 1) then ToI64(c % Words.Pow2(bits) + (U64 - Words.Pow2(bits)))
    else ToI64(c % Words.Pow2(bits))
  }

  lemma WrapIsWrap(value: int, incr: int, bits: nat)
    requires 1 <= bits <= 64
    ensures WrapResult(value, incr, bits) == WrapSigned(value + incr, bits)
  {
    var x := value + incr;
    var c := ToU64(ToU64(value) + ToU64(incr));
    WrapSum(value, incr, U64);
    assert c == ToU64(x);
    Powers(bits);
    var h := Words.Pow2(bits - 1);
    if bits == 64 {
      ToI64Wraps(x);
    } else {
      MaskedSum(x, bits);
      var low := c % Words.Pow2(bits);
      LowBit(c, bits);
      TopBit(low, bits);
      WrapOfLow(x, low, h);
      if low >= h {
        ToI64High(low + (U64 - 2 * h));
      } else {
        ToI64Small(low);
      }
    }
  }

  /** The sign bit is among the low bits. */
  lemma LowBit(c: nat, bits: nat)
    requires 1 <= bits
    ensures NumBit(c, bits - 1) == NumBit(c % Words.Pow2(bits), bits - 1)
  {
    assert Words.Pow2(bits) == 2 * Words.Pow2(bits - 1);
    hide Words.Pow2;
    HighHalf(c, Words.Pow2(bits - 1));
  }

  lemma HighHalf(c: nat, h: nat)
    requires h > 0
    ensures c / h % 2 == c % (2 * h) / h % 2
  {
    var q, r := Words.DivMod(c, 2 * h);
    var b, s := Words.DivMod(r, h);
    assert c / h % 2 == b && r / h % 2 == b by {
      QuotientBelow(r, h, b, s);
      Collect(h, q, b);
      QuotientBit(c, h, q, b, s);
      QuotientBit(r, h, 0, b, s);
    }
  }

  lemma QuotientBit(c: nat, h: nat, q: nat, b: nat, s: nat)
    requires s < h && b < 2 && c == h * (2 * q + b) + s
    ensures c / h % 2 == b
  {
    Words.ModUnique(c, h, 2 * q + b, s);
  }

  lemma QuotientBelow(r: nat, h: nat, b: nat, s: nat)
    requires r == h * b + s && r < 2 * h
    ensures b < 2
  {
    if b >= 2 {
      AtLeastTwice(h, b);
    }
  }

  lemma AtLeastTwice(h: nat, b: nat)
    requires b >= 2
    ensures 2 * h <= h * b
  {
  }

  lemma Collect(h: nat, q: nat, b: nat)
    ensures (2 * h) * q + h * b == h * (2 * q + b)
  {
  }

  lemma WrapOfLow(x: int, low: nat, h: nat)
    requires h > 0 && low == x % (2 * h)
    ensures (x + h) % (2 * h) - h == if low >= h then low - 2 * h else low
  {
    var q := x / (2 * h);
    assert x == (2 * h) * q + low;
    if low >= h {
      Next(2 * h, q);
      Words.ModUnique(x + h, 2 * h, q + 1, low - h);
    } else {
      Words.ModUnique(x + h, 2 * h, q, low + h);
    }
  }

  lemma Next(m: int, q: int)
    ensures m * (q + 1) == m * q + m
  {
  }

  /** checkSignedBitfieldOverflow. For a value in range it answers 0 exactly when the
      sum fits. For a value out of range, which only SET passes and with no increment,
      it tells a value too small from one too large only down to max - (2^63 - 1);
      below that it takes it for too large. */
  method CheckSigned(value: int, incr: int, bits: nat, owtype: Overflow) returns (r: int, limit: int)
    requires I64_MIN <= value <= I64_MAX && I64_MIN <= incr <= I64_MAX && 1 <= bits <= 64
    ensures var max := Words.Pow2(bits - 1) - 1;
      var min := -max - 1;
      && (min <= value <= max ==>
          && (r == 0 <==> min <= value + incr <= max)
          && (owtype != Wrap && r != 0 ==> r == if value + incr < min then -1 else 1))
      && (!(min <= value <= max) && incr == 0 ==>
          && r != 0
          && (owtype != Wrap ==> (r == -1 <==> max - I64_MAX <= value < min)))
      && (owtype == Wrap && r != 0 ==> r == 1 && limit == WrapSigned(value + incr, bits))
      && (owtype == Sat && r != 0 ==> limit == if r == 1 then max else min)
      && (r == 0 || r == 1 || r == -1)
  {
    hide Words.Pow2, ToI64, ToU64, WrapSigned, WrapResult;
    Powers(bits);
    if bits == 64 {
      assert Words.Pow2(bits - 1) == I64_MAX + 1;
    }
    var max := Words.Pow2(bits - 1) - 1;
    var min := -max - 1;
    var maxincr := ToI64(max - value);
    var minincr := ToI64(min - value);
    Increments(max, value);
    r, limit := 0, 0;
    if value > max || (bits != 64 && incr > maxincr) || (value >= 0 && incr > 0 && incr > maxincr) {
      if owtype == Wrap {
        WrapIsWrap(value, incr, bits);
        limit := WrapResult(value, incr, bits);
      } else if owtype == Sat {
        limit := max;
      }
      r := 1;
    } else if value < min || (bits != 64 && incr < minincr) || (value < 0 && incr < 0 && incr < minincr) {
      if owtype == Wrap {
        WrapIsWrap(value, incr, bits);
        limit := WrapResult(value, incr, bits);
        r := 1;
      } else {
        if owtype == Sat {
          limit := min;
        }
        r := -1;
      }
    }
  }

  lemma Increments(max: int, value: int)
    requires 0 <= max <= I64_MAX && I64_MIN <= value <= I64_MAX
    ensures ToI64(max - value) == if max - value <= I64_MAX then max - value else max - value - U64
    ensures ToI64(-max - 1 - value) == if -max - 1 - value >= I64_MIN then -max - 1 - value else -max - 1 - value + U64
  {
    if max - value <= I64_MAX {
      ToI64Small(max - value);
    } else {
      ToI64High(max - value);
    }
  }
}
