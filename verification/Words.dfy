/** Machine words as bit sequences, least significant bit first.
    The word width is simply the length of the sequence. */
module Words {

  type Word = seq<bool>

  function Pow2(n: nat): (r: nat)
    ensures r > 0
  {
    if n == 0 then 1 else 2 * Pow2(n - 1)
  }

  function Bit(b: bool): nat {
    if b then 1 else 0
  }

  /** The unsigned value of a word. */
  function Num(w: Word): (r: nat)
    ensures r < Pow2(|w|)
  {
    if w == [] then 0 else Bit(w[0]) + 2 * Num(w[1..])
  }

  /** The low `e` bits set: the mask of a table with 2^e buckets. */
  function Mask(width: nat, e: nat): Word {
    seq(width, i => i < e)
  }

  function Zeros(n: nat): Word {
    seq(n, _ => false)
  }

  function Ones(n: nat): Word {
    seq(n, _ => true)
  }

  function And(a: Word, b: Word): Word
    requires |a| == |b|
  {
    seq(|a|, i requires 0 <= i < |a| == |b| => a[i] && b[i])
  }

  function Or(a: Word, b: Word): Word
    requires |a| == |b|
  {
    seq(|a|, i requires 0 <= i < |a| == |b| => a[i] || b[i])
  }

  function Xor(a: Word, b: Word): Word
    requires |a| == |b|
  {
    seq(|a|, i requires 0 <= i < |a| == |b| => a[i] != b[i])
  }

  function Not(a: Word): Word {
    seq(|a|, i requires 0 <= i < |a| => !a[i])
  }

  function ShiftLeft(a: Word, s: nat): Word {
    seq(|a|, i requires 0 <= i < |a| => i >= s && a[i - s])
  }

  function ShiftRight(a: Word, s: nat): Word {
    seq(|a|, i requires 0 <= i < |a| => i + s < |a| && a[i + s])
  }

  /** `v + 1`, dropping the carry out of the top bit. */
  function Inc(w: Word): (r: Word)
    ensures |r| == |w|
  {
    if w == [] then []
    else if w[0] then [false] + Inc(w[1..])
    else [true] + w[1..]
  }

  function Reverse(w: Word): (r: Word)
    ensures |r| == |w|
  {
    seq(|w|, i requires 0 <= i < |w| => w[|w| - 1 - i])
  }

  // ---- Values -------------------------------------------------------------

  lemma {:induction false} Pow2Add(m: nat, n: nat)
    ensures Pow2(m + n) == Pow2(m) * Pow2(n)
  {
    if m > 0 {
      Pow2Add(m - 1, n);
      Doubled(Pow2(m - 1), Pow2(n));
    }
  }

  lemma Doubled(p: nat, x: nat)
    ensures (2 * p) * x == 2 * (p * x)
  {
  }

  lemma {:induction false} NumAppend(a: Word, b: Word)
    ensures Num(a + b) == Num(a) + Pow2(|a|) * Num(b)
  {
    if a == [] {
      assert a + b == b;
    } else {
      NumAppend(a[1..], b);
      assert (a + b)[1..] == a[1..] + b;
      Doubled(Pow2(|a| - 1), Num(b));
    }
  }

  lemma {:induction false} NumZeros(n: nat)
    ensures Num(Zeros(n)) == 0
  {
    if n > 0 {
      assert Zeros(n)[1..] == Zeros(n - 1);
      NumZeros(n - 1);
    }
  }

  lemma {:induction false} NumInjective(a: Word, b: Word)
    requires |a| == |b| && Num(a) == Num(b)
    ensures a == b
  {
    if a != [] {
      assert Bit(a[0]) == Bit(b[0]) && Num(a[1..]) == Num(b[1..]);
      NumInjective(a[1..], b[1..]);
      assert a == [a[0]] + a[1..] && b == [b[0]] + b[1..];
    }
  }

  /** Incrementing adds one, wrapping to zero exactly at the all-ones word. */
  lemma {:induction false} NumInc(w: Word)
    ensures Num(Inc(w)) == (if Num(w) + 1 == Pow2(|w|) then 0 else Num(w) + 1)
  {
    if w != [] {
      if w[0] {
        NumInc(w[1..]);
        assert Inc(w)[1..] == Inc(w[1..]);
      } else {
        assert Inc(w)[1..] == w[1..];
      }
    }
  }

  /** A carry leaves the low part only when that part is all ones. */
  lemma {:induction false} IncAppend(a: Word, b: Word)
    ensures Inc(a + b) == if a == Ones(|a|) then Zeros(|a|) + Inc(b) else Inc(a) + b
  {
    hide Inc, Ones, Zeros;
    if a == [] {
      EmptyWord(a, b);
    } else {
      var t := a[1..];
      IncHead(a);
      IncHead(a + b);
      OnesHead(a);
      IncAppend(t, b);
      AppendHead(a, b);
      Prepend(a[0], t, b);
      Prepend(false, Inc(t), b);
      Prepend(false, Zeros(|t|), Inc(b));
    }
  }

  lemma EmptyWord(a: Word, b: Word)
    requires a == []
    ensures a + b == b && a == Ones(|a|) && Zeros(|a|) + Inc(b) == Inc(b)
  {
    hide Inc;
  }

  lemma IncHead(w: Word)
    requires w != []
    ensures Inc(w) == if w[0] then [false] + Inc(w[1..]) else [true] + w[1..]
  {
  }

  lemma OnesHead(a: Word)
    requires a != []
    ensures a == Ones(|a|) <==> a[0] && a[1..] == Ones(|a[1..]|)
    ensures Zeros(|a|) == [false] + Zeros(|a[1..]|)
  {
    assert Ones(|a|) == [true] + Ones(|a| - 1);
    assert a == [a[0]] + a[1..];
  }

  lemma AppendHead(a: Word, b: Word)
    requires a != []
    ensures a + b != [] && (a + b)[0] == a[0] && (a + b)[1..] == a[1..] + b
  {
  }

  lemma Prepend(x: bool, s: Word, t: Word)
    ensures [x] + (s + t) == [x] + s + t && [true] + (s + t) == [true] + s + t
  {
  }

  lemma {:induction false} IncNonzero(a: Word)
    requires a != Ones(|a|)
    ensures Inc(a) != Zeros(|a|)
  {
    if a[0] {
      assert a == [a[0]] + a[1..];
      assert [true] + Ones(|a| - 1) == Ones(|a|);
      IncNonzero(a[1..]);
      assert Inc(a)[1..] == Inc(a[1..]) && Zeros(|a|)[1..] == Zeros(|a| - 1);
    } else {
      assert Inc(a)[0];
    }
  }

  lemma ReverseAppend(a: Word, b: Word)
    ensures Reverse(a + b) == Reverse(b) + Reverse(a)
  {
  }

  lemma ReverseTwice(a: Word)
    ensures Reverse(Reverse(a)) == a
  {
  }

  /** The masked word is the low part followed by zeros. */
  lemma MaskedIndex(h: Word, e: nat)
    requires e <= |h|
    ensures Num(And(h, Mask(|h|, e))) == Num(h[..e])
    ensures Num(h[..e]) < Pow2(e)
  {
    assert And(h, Mask(|h|, e)) == h[..e] + Zeros(|h| - e);
    NumAppend(h[..e], Zeros(|h| - e));
    NumZeros(|h| - e);
    assert Pow2(e) * 0 == 0;
  }

  /** The bucket of a key in a smaller table is its larger-table bucket masked. */
  lemma SmallerIndex(h: Word, e: nat, f: nat)
    requires e <= f <= |h|
    ensures Num(h[..f]) % Pow2(e) == Num(h[..e])
  {
    assert h[..f] == h[..e] + h[e..f];
    NumAppend(h[..e], h[e..f]);
    ModUnique(Num(h[..f]), Pow2(e), Num(h[e..f]), Num(h[..e]));
  }

  // ---- Division and remainder ---------------------------------------------

  lemma MulBound(m: int, d: int)
    requires m > 0
    ensures d >= 1 ==> m * d >= m
    ensures d <= -1 ==> m * d <= -m
  {
  }

  lemma ModUnique(x: int, m: int, q: int, r: int)
    requires 0 <= r < m && x == m * q + r
    ensures x % m == r && x / m == q
  {
    var q', r' := x / m, x % m;
    assert x == m * q' + r';
    assert m * (q' - q) == r - r';
    MulBound(m, q' - q);
  }

  // ---- The in-place bit reversal ------------------------------------------

  /** Where bit `i` of the partly reversed word comes from, once blocks of
      `b` bits have been put in reverse order. */
  function Origin(width: nat, b: nat, i: nat): int
    requires b > 0
  {
    width - b - i + 2 * (i % b)
  }

  lemma ModFacts(i: nat, s: nat, b: nat, w: nat)
    requires s > 0 && b == 2 * s && i < w && w % b == 0
    ensures i % b < s ==> i + s < w && (i + s) % b == i % b + s && i % s == i % b
    ensures i % b >= s ==> i >= s && (i - s) % b == i % b - s && i % s == i % b - s
  {
    var q, r := DivMod(i, b);
    var c, z := DivMod(w, b);
    BlockFacts(i, s, w, b, q, r, c);
  }

  lemma DivMod(x: nat, m: nat) returns (q: nat, r: nat)
    requires m > 0
    ensures x == m * q + r && r < m && r == x % m
  {
    q, r := x / m, x % m;
  }

  lemma BlockFacts(i: nat, s: nat, w: nat, b: nat, q: nat, r: nat, c: nat)
    requires s > 0 && b == 2 * s && i < w && i == b * q + r && r < b && w == b * c
    ensures r < s ==> i + s < w && (i + s) % b == r + s && i % s == r
    ensures r >= s ==> i >= s && (i - s) % b == r - s && i % s == r - s
  {
    Halves(b, s, q);
    if r < s {
      ModUnique(i + s, b, q, r + s);
      ModUnique(i, s, 2 * q, r);
      Distribute(b, c, q);
      MulBound(b, c - q);
    } else {
      ModUnique(i - s, b, q, r - s);
      ModUnique(i, s, 2 * q + 1, r - s);
    }
  }

  lemma Halves(b: nat, s: nat, q: nat)
    requires b == 2 * s
    ensures b * q == s * (2 * q) && b * q + s == s * (2 * q + 1)
  {
  }

  lemma Distribute(a: int, b: int, c: int)
    ensures a * (b - c) == a * b - a * c
  {
  }

  lemma MaskFacts(i: nat, s: nat)
    requires s > 0
    ensures (i % (4 * s) < 2 * s) != (i >= s && (i - s) % (4 * s) < 2 * s) <==> i % (2 * s) < s
  {
    var m := 4 * s;
    var q, r := DivMod(i, m);
    Halves(m, 2 * s, q);
    if r < 2 * s {
      ModUnique(i, 2 * s, 2 * q, r);
    } else {
      ModUnique(i, 2 * s, 2 * q + 1, r - 2 * s);
    }
    MulBound(m, q);
    if r >= s {
      ModUnique(i - s, m, q, r - s);
    } else if i >= s {
      Distribute(m, q, 1);
      ModUnique(i - s, m, q - 1, r + 3 * s);
    }
  }

  lemma Pow2Multiple(j: nat, k: nat)
    requires j <= k
    ensures Pow2(k) % Pow2(j) == 0
  {
    Pow2Add(j, k - j);
    ModUnique(Pow2(k), Pow2(j), Pow2(k - j), 0);
  }

  /** One round of `rev` on a mask and a word whose blocks of `2 * s` bits are
      already in reverse order. */
  lemma RevRound(w: Word, s: nat, mask: Word, v: Word, mask': Word, v': Word)
    requires s > 0 && |w| % (2 * s) == 0 && |mask| == |v| == |w|
    requires mask' == Xor(mask, ShiftLeft(mask, s))
    requires v' == Or(And(ShiftRight(v, s), mask'), And(ShiftLeft(v, s), Not(mask')))
    requires Rounded(w, 2 * s, mask, v)
    ensures Rounded(w, s, mask', v')
  {
    forall i | 0 <= i < |w|
      ensures mask'[i] == (i % (2 * s) < s)
      ensures 0 <= Origin(|w|, s, i) < |w| && v'[i] == w[Origin(|w|, s, i)]
    {
      MaskFacts(i, s);
      assert mask[i] == (i % (4 * s) < 2 * s);
      if i >= s { assert mask[i - s] == ((i - s) % (4 * s) < 2 * s); }
      ModFacts(i, s, 2 * s, |w|);
      if i % (2 * s) < s {
        assert v'[i] == v[i + s];
        assert Origin(|w|, 2 * s, i + s) == Origin(|w|, s, i);
      } else {
        assert v'[i] == v[i - s];
        assert Origin(|w|, 2 * s, i - s) == Origin(|w|, s, i);
      }
    }
  }

  ghost predicate Rounded(w: Word, b: nat, mask: Word, v: Word)
    requires b > 0
  {
    && |mask| == |v| == |w|
    && (forall i :: 0 <= i < |w| ==> mask[i] == (i % (2 * b) < b))
    && (forall i :: 0 <= i < |w| ==> 0 <= Origin(|w|, b, i) < |w| && v[i] == w[Origin(|w|, b, i)])
  }

  /** `rev`: swap halves, then quarters, down to single bits. */
  method Rev(w: Word, ghost k: nat) returns (v: Word)
    requires |w| == Pow2(k)
    ensures v == Reverse(w)
  {
    hide Rounded, Reverse;
    v := w;
    var mask := Ones(|w|);
    var s := |w|;
    ghost var j := k;
    RoundedInitially(w);
    while s / 2 > 0
      invariant 0 <= j <= k && s == Pow2(j)
      invariant |mask| == |v| == |w| && Rounded(w, s, mask, v)
      decreases s
    {
      ghost var v1, mask1 := v, mask;
      Pow2Multiple(j, k);
      j := j - 1;
      s := s / 2;
      mask := Xor(mask, ShiftLeft(mask, s));
      v := Or(And(ShiftRight(v, s), mask), And(ShiftLeft(v, s), Not(mask)));
      RevRound(w, s, mask1, v1, mask, v);
    }
    assert j == 0;
    RoundedFinally(w, mask, v);
  }

  lemma RoundedFinally(w: Word, mask: Word, v: Word)
    requires Rounded(w, 1, mask, v)
    ensures v == Reverse(w)
  {
    assert forall i :: 0 <= i < |w| ==> Origin(|w|, 1, i) == |w| - 1 - i;
  }

  lemma RoundedInitially(w: Word)
    requires |w| > 0
    ensures Rounded(w, |w|, Ones(|w|), w)
  {
    forall i | 0 <= i < |w|
      ensures i % (2 * |w|) < |w| && i % |w| == i
    {
      ModUnique(i, |w|, 0, i);
      ModUnique(i, 2 * |w|, 0, i);
    }
  }
}
