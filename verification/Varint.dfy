/** Base 128 varints of luaclib-src/pb/pb.h: what a varint is and what it stands
    for, as the Protocol Buffers Encoding guide's section "Base 128 Varints" has
    it. The readers and writers of the other modules are proved against this. */
module Varint {
  import opened Basics
  import opened Modular


  const U32: nat := 0x1_0000_0000
  const U64: nat := 0x1_0000_0000_0000_0000

  function Pow128(n: nat): (r: nat)
    ensures r > 0
  {
    if n == 0 then 1 else 128 * Pow128(n - 1)
  }

  /** The number of bytes of the varint `u` starts with, 0 when none ends in `u`. */
  function Run(u: seq<Byte>): (n: nat)
    ensures n <= |u|
  {
    if u == [] then 0
    else if u[0] < 128 then 1
    else
      var r := Run(u[1..]);
      if r == 0 then 0 else r + 1
  }

  /** What the low seven bits of the first `n` bytes spell, least group first. */
  function Raw(u: seq<Byte>, n: nat): (v: nat)
    requires n <= |u|
  {
    if n == 0 then 0 else Raw(u, n - 1) + u[n - 1] % 128 * Pow128(n - 1)
  }

  /** The weight of each byte: 1, 128, 16384 and so on. */
  lemma {:induction false} RawWeights(u: seq<Byte>, n: nat)
    requires n <= |u|
    ensures n > 0 ==> Raw(u, n) == u[0] % 128 + 128 * Raw(u[1..], n - 1)
  {
    if n == 1 {
      assert Raw(u, 1) == Raw(u, 0) + u[0] % 128 * Pow128(0);
      assert Pow128(0) == 1 && Raw(u, 0) == 0 && Raw(u[1..], 0) == 0;
    } else if n > 1 {
      RawWeights(u, n - 1);
      assert u[1..][n - 2] == u[n - 1];
      NextWeight(u[n - 1] % 128, Pow128(n - 2), Raw(u[1..], n - 2));
    }
  }

  lemma NextWeight(d: nat, p: nat, r: nat)
    ensures 128 * r + d * (128 * p) == 128 * (r + d * p)
  {
  }

  /** The example of the encoding guide. */
  lemma GuideExample()
    ensures Encode(150) == [0x96, 0x01] && Encode(300) == [0xAC, 0x02] && Value64([0x96, 0x01]) == 150
  {
    assert Encode(1) == [1] && Encode(2) == [2];
    var u := [0x96, 0x01];
    assert Run(u[1..]) == 1 && Run(u) == 2;
    RawWeights(u, 2);
    RawWeights(u[1..], 1);
  }

  /** The readers take no varint of more than ten bytes. */
  function Length(u: seq<Byte>): (n: nat)
    ensures n <= |u| && n <= 10
  {
    if Run(u) <= 10 then Run(u) else 0
  }

  function Value64(u: seq<Byte>): (v: nat)
    ensures v < U64
  {
    Raw(u, Run(u)) % U64
  }

  function Value32(u: seq<Byte>): (v: nat)
    ensures v < U32
  {
    Raw(u, Run(u)) % U32
  }

  /** Bytes that are one varint: all but the last carry the continuation bit. */
  ghost predicate IsVarint(u: seq<Byte>) {
    |u| > 0 && u[|u| - 1] < 128 && forall k :: 0 <= k < |u| - 1 ==> u[k] >= 128
  }

  /** What pb_write32 and pb_write64 write. */
  function Encode(n: nat): (u: seq<Byte>)
    ensures IsVarint(u)
  {
    if n < 128 then [n]
    else
      var tail := Encode(n / 128);
      assert forall k :: 0 <= k < |tail| ==> ([n % 128 + 128] + tail)[k + 1] == tail[k];
      [n % 128 + 128] + tail
  }

  // ---- Where a varint ends ---------------------------------------------------------

  lemma {:induction false} RunIsVarint(u: seq<Byte>)
    ensures Run(u) > 0 ==> IsVarint(u[..Run(u)])
    ensures Run(u) == 0 ==> forall k :: 0 <= k < |u| ==> u[k] >= 128
  {
    if u != [] && u[0] >= 128 {
      RunIsVarint(u[1..]);
      assert forall k :: 1 <= k < |u| ==> u[k] == u[1..][k - 1];
    }
  }

  /** The converse: a varint is read to its end, whatever follows it. */
  lemma {:induction false} VarintIsRun(u: seq<Byte>, rest: seq<Byte>)
    requires IsVarint(u)
    ensures Run(u + rest) == |u|
  {
    if u[0] >= 128 {
      assert (u + rest)[1..] == u[1..] + rest;
      VarintIsRun(u[1..], rest);
    } else {
      assert |u| == 1;
    }
  }

  lemma RunIs(u: seq<Byte>, n: nat)
    requires 0 < n <= |u| && u[n - 1] < 128 && forall k :: 0 <= k < n - 1 ==> u[k] >= 128
    ensures Run(u) == n
  {
    VarintIsRun(u[..n], u[n..]);
    assert u == u[..n] + u[n..];
  }

  lemma RunBeyond(u: seq<Byte>, n: nat)
    requires n <= |u| && forall k :: 0 <= k < n ==> u[k] >= 128
    ensures Run(u) == 0 || Run(u) > n
    ensures n == |u| ==> Run(u) == 0
  {
    RunIsVarint(u);
    assert Run(u) > 0 ==> u[Run(u) - 1] < 128;
  }

  /** Only the bytes of the varint matter. */
  lemma {:induction false} RawPrefix(u: seq<Byte>, rest: seq<Byte>, n: nat)
    requires n <= |u|
    ensures Raw(u + rest, n) == Raw(u, n)
  {
    if n > 0 {
      RawPrefix(u, rest, n - 1);
    }
  }

  /** A varint followed by anything is read as the varint alone is. */
  lemma Trailing(u: seq<Byte>, rest: seq<Byte>)
    requires IsVarint(u)
    ensures Run(u + rest) == Run(u) == |u| && Length(u + rest) == Length(u)
    ensures Value64(u + rest) == Value64(u) && Value32(u + rest) == Value32(u)
  {
    VarintIsRun(u, rest);
    VarintIsRun(u, []);
    assert u + [] == u;
    RawPrefix(u, rest, |u|);
  }

  // ---- Writing inverts reading --------------------------------------------------------

  lemma {:induction false} RawCons(b: Byte, u: seq<Byte>, n: nat)
    requires n <= |u|
    ensures Raw([b] + u, n + 1) == b % 128 + 128 * Raw(u, n)
  {
    if n > 0 {
      RawCons(b, u, n - 1);
      assert ([b] + u)[n] == u[n - 1];
      Shuffle(u[n - 1] % 128, Pow128(n - 1));
    } else {
      assert Raw([b] + u, 0) == 0;
    }
  }

  lemma Shuffle(a: nat, p: nat)
    ensures a * (128 * p) == 128 * (a * p)
  {
  }

  lemma {:induction false} EncodeRaw(n: nat)
    ensures Raw(Encode(n), |Encode(n)|) == n
  {
    if n < 128 {
      assert Raw([n], 0) == 0;
    } else {
      EncodeRaw(n / 128);
      RawCons(n % 128 + 128, Encode(n / 128), |Encode(n / 128)|);
    }
  }

  /** No number below 128^k needs more than k bytes. */
  lemma {:induction false} EncodeLength(n: nat, k: nat)
    requires k > 0 && n < Pow128(k)
    ensures |Encode(n)| <= k
  {
    if n >= 128 {
      assert Pow128(1) == 128 * Pow128(0);
      EncodeLength(n / 128, k - 1);
    }
  }

  lemma Powers()
    ensures Pow128(1) == 0x80 && Pow128(2) == 0x4000 && Pow128(3) == 0x20_0000 && Pow128(4) == 0x1000_0000
    ensures Pow128(5) == 0x8_0000_0000 && Pow128(6) == 0x400_0000_0000 && Pow128(7) == 0x2_0000_0000_0000
    ensures Pow128(8) == 0x100_0000_0000_0000 && Pow128(9) == 0x8000_0000_0000_0000
    ensures Pow128(10) == 64 * U64
  {
    assert Pow128(1) == 128 * Pow128(0);
    assert Pow128(2) == 128 * Pow128(1);
    assert Pow128(3) == 128 * Pow128(2);
    assert Pow128(4) == 128 * Pow128(3);
    assert Pow128(5) == 128 * Pow128(4);
    assert Pow128(6) == 128 * Pow128(5);
    assert Pow128(7) == 128 * Pow128(6);
    assert Pow128(8) == 128 * Pow128(7);
    assert Pow128(9) == 128 * Pow128(8);
    assert Pow128(10) == 128 * Pow128(9);
  }

  /** Every 64-bit number is read back as written, in at most ten bytes, whatever
      follows; every 32-bit number in at most five, by either reader. */
  lemma RoundTrip(n: nat, rest: seq<Byte>)
    requires n < U64
    ensures Length(Encode(n) + rest) == Run(Encode(n) + rest) == |Encode(n)| && Value64(Encode(n) + rest) == n
    ensures Value32(Encode(n) + rest) == n % U32
    ensures n < U32 ==> |Encode(n)| <= 5
  {
    hide Pow128, Raw, Encode;
    Powers();
    EncodeLength(n, 10);
    if n < U32 {
      EncodeLength(n, 5);
    }
    EncodeRaw(n);
    Trailing(Encode(n), rest);
  }

  lemma {:induction false} RawBound(u: seq<Byte>, n: nat)
    requires n <= |u|
    ensures Raw(u, n) < Pow128(n)
  {
    if n > 0 {
      RawBound(u, n - 1);
      MulUpTo127(u[n - 1] % 128, Pow128(n - 1));
    }
  }

  lemma MulUpTo127(a: nat, p: nat)
    requires a <= 127
    ensures a * p <= 127 * p
  {
  }

  /** No varint is shorter than the one written for the number it spells. */
  lemma EncodeShortest(u: seq<Byte>)
    requires IsVarint(u)
    ensures |Encode(Raw(u, |u|))| <= |u|
  {
    RawBound(u, |u|);
    EncodeLength(Raw(u, |u|), |u|);
  }

  // ---- Reading byte by byte ------------------------------------------------------------

  /** The first `k` bytes all say that the varint goes on. */
  ghost predicate GoesOn(u: seq<Byte>, k: nat) {
    k <= |u| && forall i :: 0 <= i < k ==> u[i] >= 128
  }

  /** What lets the fast readers run ahead: ten bytes, or a last byte that ends any varint. */
  ghost predicate SafeToRun(u: seq<Byte>) {
    |u| >= 10 || (|u| > 0 && u[|u| - 1] < 128)
  }

  lemma NextByte(u: seq<Byte>, k: nat)
    requires GoesOn(u, k)
    ensures SafeToRun(u) && k < 10 ==> k < |u|
    ensures k < |u| ==> if u[k] >= 128 then GoesOn(u, k + 1) else Run(u) == k + 1 && (k < 10 ==> Length(u) == k + 1)
    ensures k == 10 || k == |u| ==> Length(u) == 0
  {
    RunBeyond(u, k);
    if k < |u| && u[k] < 128 {
      RunIs(u, k + 1);
    }
  }

  /** Byte `k` counted in full, its continuation bit included. */
  lemma WholeByte(u: seq<Byte>, k: nat, c: nat)
    requires k < |u| && c == Pow128(k)
    ensures Raw(u, k + 1) + (if u[k] >= 128 then 128 * c else 0) == Raw(u, k) + u[k] * c
  {
    if u[k] >= 128 {
      assert u[k] % 128 == u[k] - 128;
      assert u[k] * c == (u[k] - 128) * c + 128 * c;
    }
  }

  /** From the fifth byte on, nothing reaches the low 32 bits. */
  lemma {:induction false} RawHigh32(u: seq<Byte>, n: nat)
    requires 5 <= n <= |u|
    ensures Raw(u, n) % U32 == Raw(u, 5) % U32
  {
    if n > 5 {
      RawHigh32(u, n - 1);
      var q := HighPower(n - 1);
      var a := u[n - 1] % 128;
      assert a * Pow128(n - 1) == (a * q) * U32 by { MulAssoc(a, q, U32); }
      Periodic(Raw(u, n - 1), a * q, U32);
    }
  }

  lemma MulAssoc(a: nat, q: nat, m: nat)
    ensures a * (q * m) == (a * q) * m
  {
  }

  lemma {:induction false} HighPower(n: nat) returns (q: nat)
    requires n >= 5
    ensures Pow128(n) == q * U32
  {
    if n == 5 {
      Powers();
      q := 8;
    } else {
      var r := HighPower(n - 1);
      q := 128 * r;
      MulAssoc(128, r, U32);
    }
  }
}
