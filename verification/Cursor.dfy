/** The reverse-binary cursor of an incremental scan: cursors and hashes are
    ordered by the value of their bit reversal. */
module Cursor {
  import opened Words

  /** Where a word stands in the scan order. */
  function Position(v: Word): (r: nat)
    ensures r < Pow2(|v|)
  {
    Num(Reverse(v))
  }

  /** `v |= ~m; v = rev(v); v++; v = rev(v)` for the mask `m` of 2^e buckets. */
  function NextCursor(v: Word, e: nat): (n: Word)
    requires e <= |v|
    ensures |n| == |v|
  {
    Reverse(Inc(Reverse(Or(v, Not(Mask(|v|, e))))))
  }

  /** The next bucket prefix in scan order. */
  function Successor(p: Word): (n: Word)
    ensures |n| == |p|
  {
    Reverse(Inc(Reverse(p)))
  }

  /** `v & (m0 ^ m1)` is zero. */
  predicate Aligned(v: Word, e0: nat, e1: nat) {
    And(v, Xor(Mask(|v|, e0), Mask(|v|, e1))) == Zeros(|v|)
  }

  lemma NextCursorPrefix(v: Word, e: nat)
    requires e <= |v|
    ensures NextCursor(v, e) == Successor(v[..e]) + Zeros(|v| - e)
  {
    var m := |v| - e;
    assert Or(v, Not(Mask(|v|, e))) == v[..e] + Ones(m);
    assert Reverse(v[..e] + Ones(m)) == Ones(m) + Reverse(v[..e]);
    IncAppend(Ones(m), Reverse(v[..e]));
    assert |Ones(m)| == m;
    assert Reverse(Zeros(m) + Inc(Reverse(v[..e]))) == Successor(v[..e]) + Zeros(m);
  }

  lemma PositionSplit(h: Word, e: nat)
    requires e <= |h|
    ensures Position(h) == Position(h[e..]) + Pow2(|h| - e) * Position(h[..e])
  {
    assert h == h[..e] + h[e..];
    assert Reverse(h) == Reverse(h[e..]) + Reverse(h[..e]);
    NumAppend(Reverse(h[e..]), Reverse(h[..e]));
  }

  lemma PositionInjective(a: Word, b: Word)
    requires |a| == |b| && Position(a) == Position(b)
    ensures a == b
  {
    NumInjective(Reverse(a), Reverse(b));
    ReverseTwice(a);
    ReverseTwice(b);
  }

  lemma PositionZeros(n: nat)
    ensures Position(Zeros(n)) == 0
  {
    assert Reverse(Zeros(n)) == Zeros(n);
    NumZeros(n);
  }

  lemma PositionSuccessor(p: Word)
    ensures Position(Successor(p)) == if Position(p) + 1 == Pow2(|p|) then 0 else Position(p) + 1
  {
    ReverseTwice(Inc(Reverse(p)));
    NumInc(Reverse(p));
  }

  /** Comparing two-part numbers `r + P * p` by their high parts. */
  lemma HighPartsDecide(P: nat, pv: nat, rv: nat, ph: nat, rh: nat)
    requires rv < P && rh < P
    ensures pv <= ph <==> P * pv < P * (ph + 1)
    ensures rv + P * pv < P * (pv + 1)
    ensures rh + P * ph < P * (pv + 1) <==> ph <= pv
    ensures rv + P * pv <= rh + P * ph ==> pv <= ph
  {
    Spread(P, pv, ph);
    Spread(P, ph, pv);
    assert P * (pv + 1) == P * pv + P && P * (ph + 1) == P * ph + P;
  }

  lemma Spread(P: nat, a: nat, b: nat)
    ensures a < b ==> P * a + P <= P * b
    ensures a <= b ==> P * a <= P * b
  {
    if a < b && P > 0 {
      Distribute(P, b, a);
      MulBound(P, b - a);
    }
  }

  /** The next cursor in numbers: the bucket prefix goes up by one, or wraps. */
  lemma NextCursorPosition(v: Word, e: nat)
    requires e <= |v|
    ensures var n := NextCursor(v, e);
      var p := Position(v[..e]);
      if p + 1 == Pow2(e) then n == Zeros(|v|) && Position(n) == 0
      else n != Zeros(|v|) && Position(n) == Pow2(|v| - e) * (p + 1)
  {
    var n := NextCursor(v, e);
    NextCursorPrefix(v, e);
    PositionSuccessor(v[..e]);
    assert n[..e] == Successor(v[..e]) && n[e..] == Zeros(|v| - e);
    PositionSplit(n, e);
    PositionZeros(|v| - e);
    PositionZeros(|v|);
    PositionZeros(e);
    if n == Zeros(|v|) { assert n[..e] == Zeros(e); }
    if Position(n[..e]) == 0 {
      PositionInjective(n[..e], Zeros(e));
      assert n == n[..e] + n[e..] == Zeros(|v|);
    }
  }

  /** One step of the cursor moves strictly forward or wraps to zero, and the
      words it passes are those that share the cursor's bucket. */
  lemma StepCovers(v: Word, e: nat, h: Word)
    requires e <= |v| == |h|
    ensures var n := NextCursor(v, e);
      && (n == Zeros(|v|) || Position(v) < Position(n))
      && (h[..e] == v[..e] <==>
          Position(v[..e]) <= Position(h[..e]) && (n == Zeros(|v|) || Position(h) < Position(n)))
      && (Position(v) <= Position(h) ==> Position(v[..e]) <= Position(h[..e]))
  {
    NextCursorPosition(v, e);
    PositionSplit(v, e);
    PositionSplit(h, e);
    HighPartsDecide(Pow2(|v| - e), Position(v[..e]), Position(v[e..]), Position(h[..e]), Position(h[e..]));
    if Position(h[..e]) == Position(v[..e]) { PositionInjective(h[..e], v[..e]); }
  }

  lemma AlignedMeans(v: Word, e0: nat, e1: nat)
    requires e0 <= e1 <= |v|
    ensures Aligned(v, e0, e1) <==> v[e0..e1] == Zeros(e1 - e0)
  {
    var w := And(v, Xor(Mask(|v|, e0), Mask(|v|, e1)));
    forall i | 0 <= i < |v| ensures w[i] == (e0 <= i < e1 && v[i]) {}
    if Aligned(v, e0, e1) {
      forall i | 0 <= i < e1 - e0 ensures !v[e0..e1][i] {
        assert !Zeros(|v|)[e0 + i] && w[e0 + i] == v[e0 + i];
      }
    }
    if v[e0..e1] == Zeros(e1 - e0) {
      forall i | 0 <= i < |v| ensures !w[i] {
        if e0 <= i < e1 { assert v[i] == v[e0..e1][i - e0]; }
      }
      assert w == Zeros(|v|);
    }
  }

  lemma ReverseUniform(w: Word)
    ensures Reverse(w) == Ones(|w|) <==> w == Ones(|w|)
    ensures Reverse(w) == Zeros(|w|) <==> w == Zeros(|w|)
  {
    ReverseTwice(w);
    assert Reverse(Ones(|w|)) == Ones(|w|);
    assert Reverse(Zeros(|w|)) == Zeros(|w|);
  }

  lemma SuccessorAppend(lo: Word, mid: Word)
    ensures Successor(lo + mid) ==
      if mid == Ones(|mid|) then Successor(lo) + Zeros(|mid|) else lo + Successor(mid)
  {
    ReverseAppend(lo, mid);
    IncAppend(Reverse(mid), Reverse(lo));
    ReverseUniform(mid);
    ReverseUniform(Zeros(|mid|));
    ReverseTwice(lo);
    ReverseAppend(Zeros(|mid|), Inc(Reverse(lo)));
    ReverseAppend(Inc(Reverse(mid)), Reverse(lo));
  }

  lemma SuccessorNonzero(mid: Word)
    requires mid != Ones(|mid|)
    ensures Successor(mid) != Zeros(|mid|)
  {
    ReverseUniform(mid);
    IncNonzero(Reverse(mid));
    ReverseUniform(Inc(Reverse(mid)));
  }

  /** Walking the larger table's expansions of one small bucket ends exactly
      where the small table alone would have moved the cursor. */
  lemma ExpansionStep(v: Word, e0: nat, e1: nat)
    requires e0 <= e1 <= |v|
    ensures var n := NextCursor(v, e1);
      if Aligned(n, e0, e1) then n == NextCursor(v, e0) else n[..e0] == v[..e0]
  {
    var n, lo, mid := NextCursor(v, e1), v[..e0], v[e0..e1];
    NextCursorPrefix(v, e1);
    assert v[..e1] == lo + mid;
    SuccessorAppend(lo, mid);
    AlignedMeans(n, e0, e1);
    var z := Zeros(|v| - e1);
    if mid == Ones(|mid|) {
      PrefixOf(n, Successor(lo), Zeros(|mid|), z);
      assert Zeros(|mid|) + z == Zeros(|v| - e0);
      NextCursorPrefix(v, e0);
    } else {
      PrefixOf(n, lo, Successor(mid), z);
      SuccessorNonzero(mid);
    }
  }

  lemma PrefixOf(n: Word, a: Word, b: Word, c: Word)
    requires n == (a + b) + c
    ensures n[..|a|] == a && n[|a|..|a| + |b|] == b && n == a + (b + c)
  {
  }
}
